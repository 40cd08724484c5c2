/** What driving the clients comes to in any environment, turn by turn: which client's check or call
    ends a promotion, in which exception, and what happened until then. */
module DrivingLaws {
  import opened Outcomes
  import opened DlrnHashes
  import opened PromotionApi
  import opened DlrnClientSpec
  import opened DlrnClientTheorems
  import opened DlrnClientLaws
  import opened ClientOrder
  import opened PromoterSpec
  import opened PromoterTheorems
  import opened CompletionTheorems

  // ---- The turns of a promotion ----

  /** The turns before the k-th client's check: one for each watched label and one for the call, for
      every client before it. */
  function Before(names: seq<string>, k: nat): nat {
    k * (|names| + 1)
  }

  lemma BeforeNext(names: seq<string>, k: nat)
    ensures Before(names, 0) == 0 && Before(names, k + 1) == Before(names, k) + |names| + 1
  {
  }

  /** The turn that the k-th client's call meets. */
  function CallTurn(net: Net, names: seq<string>, k: nat): Turn {
    TurnAt(net, Before(names, k) + |names|)
  }

  /** The k-th client, other than the DLRN client, returns: its check passes and its call does not fail. */
  ghost predicate GetsThrough(net: Net, names: seq<string>, stored: map<string, Hash>, k: nat) {
    CheckPasses(After(net, Before(names, k)), names, stored) && CallTurn(net, names, k).fault.None?
  }

  /** So do the first k clients. */
  ghost predicate GetThrough(net: Net, names: seq<string>, stored: map<string, Hash>, clients: seq<string>, k: nat)
    requires k <= |clients|
  {
    forall i | 0 <= i < k :: IsClient(clients[i]) && clients[i] != DLRN && GetsThrough(net, names, stored, i)
  }

  /** Nothing was posted or stored; exactly these clients were called; the server and the environment
      are where they are after these turns. */
  ghost predicate EndsAt(st: State, r: Result, net: Net, calls: seq<Event>, error: Option<Error>) {
    && r.error == error && r.state.stored == st.stored && r.state.criteria == st.criteria
    && Bare(r.state.net) == Bare(net)
    && Only(r.state.net.trace, IsCall) == Only(st.net.trace, IsCall) + calls
    && Only(r.state.net.trace, IsPost) == Only(st.net.trace, IsPost)
  }

  lemma BarePasses(a: Net, b: Net, names: seq<string>, stored: map<string, Hash>)
    requires Bare(a) == Bare(b)
    ensures CheckPasses(a, names, stored) == CheckPasses(b, names, stored)
  {
    hide Valid, Reading, Agrees;
    forall k: nat | k < |names| ensures Reading(a, names, k) == Reading(b, names, k) {
      BareReading(a, b, names, k);
    }
  }

  lemma CheckRecordsNothing(net: Net, names: seq<string>, stored: map<string, Hash>)
    ensures var r := Check(net, names, stored).net;
            Only(r.trace, IsCall) == Only(net.trace, IsCall) && Only(r.trace, IsPost) == Only(net.trace, IsPost)
  {
    hide Valid, Check, Only;
    NoneAdded(net.trace, Check(net, names, stored).net.trace, IsCall);
    NoneAdded(net.trace, Check(net, names, stored).net.trace, IsPost);
  }

  lemma PassedIsRead(net: Net, names: seq<string>, stored: map<string, Hash>)
    requires CheckPasses(net, names, stored)
    ensures ReadBefore(net, names, |names|)
  {
    hide Valid, Reading;
    forall k | 0 <= k < |names| ensures Reading(net, names, k).Returned? {
      assert Agrees(Reading(net, names, k), names[k], stored);
    }
  }

  /** A passed check, and the call of a client other than the DLRN client. */
  lemma OneCallOutcome(names: seq<string>, st: State, client: string, h: Hash, target: string)
    requires Distinct(names) && client != DLRN && CheckPasses(st.net, names, st.stored)
    ensures var check := Check(st.net, names, st.stored);
            && check.error.None?
            && EndsAt(st, RunClient(st.(net := check.net), client, h, target), After(st.net, |names| + 1),
                      [Called(client, target, h)], TurnAt(st.net, |names|).fault)
  {
    hide Valid, Check, RunClient, Only, CheckPasses, After, TurnAt;
    PassedIsRead(st.net, names, st.stored);
    CheckOutcome(st.net, names, st.stored);
    CheckRecordsNothing(st.net, names, st.stored);
    RunOther(st.(net := Check(st.net, names, st.stored).net), st.net, |names|, client, h, target);
  }

  /** The call of a client other than the DLRN client. */
  lemma RunOther(st: State, net: Net, n: nat, client: string, h: Hash, target: string)
    requires client != DLRN && Bare(st.net) == Bare(After(net, n))
    ensures EndsAt(st, RunClient(st, client, h, target), After(net, n + 1), [Called(client, target, h)],
                   TurnAt(net, n).fault)
  {
    hide Valid, Only, Advance, After, TurnAt, NextTurn;
    var called := Note(st.net, Called(client, target, h));
    CallMeetsTurn(net, called, n);
    var fault := NextTurn(called).fault;
    var finished := Note(Advance(called), Finished(client, fault.None?));
    OneAdded(st.net.trace, Called(client, target, h), IsCall);
    NoneAdded(st.net.trace, called.trace, IsPost);
    NoneAdded(called.trace, finished.trace, IsCall);
    NoneAdded(called.trace, finished.trace, IsPost);
  }

  /** What ends in one way after another part of the promotion. */
  lemma EndsThen(st: State, mid: State, r: Result, between: Net, after: Net, end: Net, first: seq<Event>,
                 rest: seq<Event>, error: Option<Error>)
    requires EndsAt(st, Result(mid, None), between, first, None) && EndsAt(mid, r, after, rest, error)
    requires Bare(after) == Bare(end)
    ensures EndsAt(st, r, end, first + rest, error)
  {
    hide Valid, Only;
    var calls := Only(st.net.trace, IsCall);
    assert calls + first + rest == calls + (first + rest);
  }

  lemma CallMeetsTurn(net: Net, called: Net, n: nat)
    requires Bare(called) == Bare(After(net, n))
    ensures NextTurn(called) == TurnAt(net, n) && Bare(Advance(called)) == Bare(After(net, n + 1))
  {
    hide Valid, Advance, Later;
    BareAdvance(called, After(net, n));
    AfterTakes(net, n);
    TurnLater(net, After(net, n), n, 0);
    TurnIsNext(After(net, n));
    AfterAfter(net, n, 1);
    assert After(After(net, n), 1) == After(Advance(After(net, n)), 0) == Advance(After(net, n));
  }

  // ---- Getting to the k-th client ----

  lemma GetThroughRest(net: Net, mid: Net, names: seq<string>, stored: map<string, Hash>, clients: seq<string>, k: nat)
    requires 0 < k <= |clients| && GetThrough(net, names, stored, clients, k)
    requires Bare(mid) == Bare(After(net, |names| + 1))
    ensures GetThrough(mid, names, stored, clients[1..], k - 1)
    ensures Bare(After(mid, Before(names, k - 1))) == Bare(After(net, Before(names, k)))
  {
    hide Valid, CheckPasses, Before, After, TurnAt;
    BeforeNext(names, k - 1);
    TurnsAfterOne(net, mid, |names| + 1, Before(names, k - 1));
    forall i: nat | i < k - 1 ensures GetsThrough(mid, names, stored, i) {
      BeforeNext(names, i);
      assert GetsThrough(net, names, stored, i + 1);
      TurnsAfterOne(net, mid, |names| + 1, Before(names, i));
      TurnsAfterOne(net, mid, |names| + 1, Before(names, i) + |names|);
      BarePasses(After(mid, Before(names, i)), After(net, Before(names, i + 1)), names, stored);
    }
  }

  lemma TurnsAfterOne(net: Net, mid: Net, n: nat, i: nat)
    requires Bare(mid) == Bare(After(net, n))
    ensures Bare(After(mid, i)) == Bare(After(net, n + i)) && TurnAt(mid, i) == TurnAt(net, n + i)
  {
    hide Valid, Advance, Later;
    BareAfter(mid, After(net, n), i);
    AfterAfter(net, n, i);
    AfterTakes(net, n);
    TurnLater(net, After(net, n), n, i);
  }

  lemma FirstGetsThrough(net: Net, names: seq<string>, stored: map<string, Hash>, clients: seq<string>, k: nat)
    requires 0 < k <= |clients| && GetThrough(net, names, stored, clients, k)
    ensures IsClient(clients[0]) && clients[0] != DLRN
    ensures CheckPasses(net, names, stored) && TurnAt(net, |names|).fault.None?
  {
    hide Valid, CheckPasses, Before;
    assert GetsThrough(net, names, stored, 0);
    BeforeNext(names, 0);
    assert After(net, 0) == net;
  }

  /** After the first k clients got through, the promotion goes on with the others where they left it. */
  lemma {:induction false} Reach(names: seq<string>, st: State, clients: seq<string>, h: Hash, target: string, k: nat)
    returns (mid: State)
    requires Distinct(names) && k <= |clients| && GetThrough(st.net, names, st.stored, clients, k)
    ensures EndsAt(st, Result(mid, None), After(st.net, Before(names, k)), CallsOf(clients[..k], target, h), None)
    ensures PromoteWith(names, st, clients, h, target) == PromoteWith(names, mid, clients[k..], h, target)
    decreases k
  {
    hide Valid, Check, RunClient, CheckPasses, GetThrough, Before, After, TurnAt, EndsAt, CallsOf, Only;
    if k == 0 {
      mid := st;
      NoneYet(names, st, clients, h, target);
      assert clients[0..] == clients;
    } else {
      FirstGetsThrough(st.net, names, st.stored, clients, k);
      OneCallOutcome(names, st, clients[0], h, target);
      var run := RunClient(st.(net := Check(st.net, names, st.stored).net), clients[0], h, target);
      var call, rest := [Called(clients[0], target, h)], CallsOf(clients[1..][..k - 1], target, h);
      EndIsBare(st, run, After(st.net, |names| + 1), call, None);
      GetThroughRest(st.net, run.state.net, names, st.stored, clients, k);
      mid := Reach(names, run.state, clients[1..], h, target, k - 1);
      EndsThen(st, run.state, Result(mid, None), After(st.net, |names| + 1),
               After(run.state.net, Before(names, k - 1)), After(st.net, Before(names, k)), call, rest, None);
      FirstThenRest(clients, target, h, k);
    }
  }

  lemma FirstThenRest(clients: seq<string>, target: string, h: Hash, k: nat)
    requires 0 < k <= |clients|
    ensures [Called(clients[0], target, h)] + CallsOf(clients[1..][..k - 1], target, h) ==
            CallsOf(clients[..k], target, h)
    ensures clients[1..][k - 1..] == clients[k..]
  {
    hide Valid, CallsOf;
    FirstCall([], clients, target, h, k - 1);
    var call, rest := [Called(clients[0], target, h)], CallsOf(clients[1..][..k - 1], target, h);
    assert [] + CallsOf(clients[..k], target, h) == CallsOf(clients[..k], target, h);
    assert [] + call + rest == call + rest;
  }

  lemma NoneYet(names: seq<string>, st: State, clients: seq<string>, h: Hash, target: string)
    ensures EndsAt(st, Result(st, None), After(st.net, Before(names, 0)), CallsOf(clients[..0], target, h), None)
  {
    hide Valid, Only;
    NoCalls(clients[..0], target, h);
    assert Only(st.net.trace, IsCall) + [] == Only(st.net.trace, IsCall);
  }

  // ---- Where it ends ----

  /** When all clients get through, the promotion returns normally. */
  lemma AllReturn(names: seq<string>, st: State, clients: seq<string>, h: Hash, target: string)
    requires Distinct(names) && GetThrough(st.net, names, st.stored, clients, |clients|)
    ensures EndsAt(st, PromoteWith(names, st, clients, h, target), After(st.net, Before(names, |clients|)),
                   CallsOf(clients, target, h), None)
  {
    hide Valid, Only, GetThrough, CallsOf, Before;
    var mid := Reach(names, st, clients, h, target, |clients|);
    assert clients[..|clients|] == clients;
  }

  /** A name that is no client ends the promotion in an AttributeError, before its check. */
  lemma UnknownClientStops(names: seq<string>, st: State, clients: seq<string>, h: Hash, target: string, k: nat)
    requires Distinct(names) && k < |clients| && GetThrough(st.net, names, st.stored, clients, k)
    requires !IsClient(clients[k])
    ensures EndsAt(st, PromoteWith(names, st, clients, h, target), After(st.net, Before(names, k)),
                   CallsOf(clients[..k], target, h), Some(AttributeError))
  {
    hide Valid, Only, GetThrough, CallsOf, Before;
    var mid := Reach(names, st, clients, h, target, k);
  }

  /** When the turn that a client's call meets fails, the promotion ends in that exception: nothing is
      posted or stored, and no later client is called. */
  lemma FailedClientStops(names: seq<string>, st: State, clients: seq<string>, h: Hash, target: string, k: nat)
    requires Distinct(names) && k < |clients| && GetThrough(st.net, names, st.stored, clients, k)
    requires IsClient(clients[k]) && clients[k] != DLRN
    requires CheckPasses(After(st.net, Before(names, k)), names, st.stored)
    requires CallTurn(st.net, names, k).fault.Some?
    ensures EndsAt(st, PromoteWith(names, st, clients, h, target), After(st.net, Before(names, k + 1)),
                   CallsOf(clients[..k + 1], target, h), CallTurn(st.net, names, k).fault)
  {
    hide Valid, Check, RunClient, Only, CheckPasses, GetThrough, CallsOf, Before, After, TurnAt, EndsAt;
    var mid := Reach(names, st, clients, h, target, k);
    EndIsBare(st, Result(mid, None), After(st.net, Before(names, k)), CallsOf(clients[..k], target, h), None);
    BarePasses(After(st.net, Before(names, k)), mid.net, names, st.stored);
    assert mid.stored == st.stored;
    OneCallOutcome(names, mid, clients[k], h, target);
    TurnsAfterOne(st.net, mid.net, Before(names, k), |names|);
    TurnsAfterOne(st.net, mid.net, Before(names, k), |names| + 1);
    BeforeNext(names, k);
    OneMoreCall(clients, target, h, k);
    var run := RunClient(mid.(net := Check(mid.net, names, mid.stored).net), clients[k], h, target);
    EndsThen(st, mid, run, After(st.net, Before(names, k)), After(mid.net, |names| + 1),
             After(st.net, Before(names, k + 1)), CallsOf(clients[..k], target, h), [Called(clients[k], target, h)],
             TurnAt(mid.net, |names|).fault);
    EndIsBare(mid, run, After(mid.net, |names| + 1), [Called(clients[k], target, h)], TurnAt(mid.net, |names|).fault);
    assert clients[k..][0] == clients[k];
  }

  lemma OneMoreCall(clients: seq<string>, target: string, h: Hash, k: nat)
    requires k < |clients|
    ensures CallsOf(clients[..k], target, h) + [Called(clients[k], target, h)] == CallsOf(clients[..k + 1], target, h)
  {
    hide Valid;
    var longer, shorter := CallsOf(clients[..k + 1], target, h), CallsOf(clients[..k], target, h);
    forall i: nat | i <= k ensures (shorter + [Called(clients[k], target, h)])[i] == longer[i] {
    }
    assert shorter + [Called(clients[k], target, h)] == longer;
  }

  /** The exception a check ends in, and the server then: that of the first label that cannot be read,
      after as many turns, and else HashChangedError. */
  ghost predicate CheckStops(net: Net, names: seq<string>, after: Net, error: Error) {
    if ReadBefore(net, names, |names|) then error == HashChangedError && Bare(after) == Bare(After(net, |names|))
    else
      exists k: nat | k < |names| ::
        ReadBefore(net, names, k) && Reading(net, names, k) == Raised(error) && Bare(after) == Bare(After(net, k + 1))
  }

  lemma {:induction false} FirstUnread(net: Net, names: seq<string>, n: nat) returns (k: nat)
    requires n <= |names| && !ReadBefore(net, names, n)
    ensures k < n && ReadBefore(net, names, k) && Reading(net, names, k).Raised?
  {
    hide Valid, Reading;
    if ReadBefore(net, names, n - 1) {
      k := n - 1;
    } else {
      k := FirstUnread(net, names, n - 1);
    }
  }

  /** A check that does not pass ends the promotion before its client is called. */
  lemma FailedCheckStops(names: seq<string>, st: State, clients: seq<string>, h: Hash, target: string, k: nat)
    requires Distinct(names) && k < |clients| && GetThrough(st.net, names, st.stored, clients, k)
    requires IsClient(clients[k]) && !CheckPasses(After(st.net, Before(names, k)), names, st.stored)
    ensures var r := PromoteWith(names, st, clients, h, target);
            && r.error.Some?
            && CheckStops(After(st.net, Before(names, k)), names, r.state.net, r.error.value)
            && EndsAt(st, r, r.state.net, CallsOf(clients[..k], target, h), r.error)
  {
    hide Valid, Check, Only, CheckPasses, GetThrough, CallsOf, Before;
    var start := After(st.net, Before(names, k));
    var mid := Reach(names, st, clients, h, target, k);
    BarePasses(start, mid.net, names, st.stored);
    CheckOutcome(mid.net, names, mid.stored);
    CheckRecordsNothing(mid.net, names, mid.stored);
    StopsAlike(start, mid.net, names, Check(mid.net, names, mid.stored));
  }

  lemma StopsAlike(start: Net, net: Net, names: seq<string>, check: Step)
    requires Bare(start) == Bare(net) && check.error.Some?
    requires forall k: nat | k < |names| && ReadBefore(net, names, k) && Reading(net, names, k).Raised? ::
               check.error == Some(Reading(net, names, k).error) && Bare(check.net) == Bare(After(net, k + 1))
    requires ReadBefore(net, names, |names|) ==>
               check.error == Some(HashChangedError) && Bare(check.net) == Bare(After(net, |names|))
    ensures CheckStops(start, names, check.net, check.error.value)
  {
    hide Valid, Reading, ReadBefore, After;
    SameReadBefore(start, net, names, |names|);
    if ReadBefore(start, names, |names|) {
      BareAfter(start, net, |names|);
    } else {
      var k := FirstUnread(start, names, |names|);
      SameReadBefore(start, net, names, k);
      BareReading(start, net, names, k);
      BareAfter(start, net, k + 1);
    }
  }

  lemma SameReadBefore(a: Net, b: Net, names: seq<string>, k: nat)
    requires Bare(a) == Bare(b) && k <= |names|
    ensures ReadBefore(a, names, k) == ReadBefore(b, names, k)
  {
    hide Valid, Reading;
    forall j: nat | j < k ensures Reading(a, names, j) == Reading(b, names, j) {
      BareReading(a, b, names, j);
    }
  }

  lemma EndIsBare(st: State, r: Result, net: Net, calls: seq<Event>, error: Option<Error>)
    requires EndsAt(st, r, net, calls, error)
    ensures Bare(r.state.net) == Bare(net) && r.state.stored == st.stored && r.error == error
  {
  }

  /** When the others got through and the last check passes, the promotion ends as the DLRN client's:
      with its error, its posts, and what it stored. */
  lemma DlrnClientDecides(names: seq<string>, st: State, clients: seq<string>, h: Hash, target: string)
    returns (called: Net)
    requires Distinct(names) && clients != []
    requires var k := |clients| - 1;
             && clients[k] == DLRN && GetThrough(st.net, names, st.stored, clients, k)
             && CheckPasses(After(st.net, Before(names, k)), names, st.stored)
    ensures Bare(called) == Bare(After(st.net, Before(names, |clients| - 1) + |names|))
    ensures Only(called.trace, IsCall) == Only(st.net.trace, IsCall) + CallsOf(clients, target, h)
    ensures Only(called.trace, IsPost) == Only(st.net.trace, IsPost)
    ensures var r := PromoteWith(names, st, clients, h, target);
            var p := DlrnClientSpec.Promote(called, st.stored, h, target, true);
            && r.error == p.error && r.state.stored == p.stored && r.state.criteria == st.criteria
            && r.state.net == Note(p.net, Finished(DLRN, p.error.None?))
  {
    hide Valid, Check, Only, CheckPasses, GetThrough, CallsOf, Before, DlrnClientSpec.Promote, PromoteWith, After;
    var k := |clients| - 1;
    var mid := Reach(names, st, clients, h, target, k);
    BarePasses(After(st.net, Before(names, k)), mid.net, names, st.stored);
    called := CheckedCall(names, mid, h, target);
    OneMoreCall(clients, target, h, k);
    assert Only(called.trace, IsCall) ==
           Only(st.net.trace, IsCall) + (CallsOf(clients[..k], target, h) + [Called(DLRN, target, h)]);
    assert clients[..k + 1] == clients && clients[k..] == [DLRN];
    TurnsAfterOne(st.net, mid.net, Before(names, k), |names|);
  }

  /** A passed check, and the DLRN client as the last one. */
  lemma CheckedCall(names: seq<string>, st: State, h: Hash, target: string) returns (called: Net)
    requires Distinct(names) && CheckPasses(st.net, names, st.stored)
    ensures Bare(called) == Bare(After(st.net, |names|))
    ensures Only(called.trace, IsCall) == Only(st.net.trace, IsCall) + [Called(DLRN, target, h)]
    ensures Only(called.trace, IsPost) == Only(st.net.trace, IsPost)
    ensures var r := PromoteWith(names, st, [DLRN], h, target);
            var p := DlrnClientSpec.Promote(called, st.stored, h, target, true);
            && r.error == p.error && r.state.stored == p.stored && r.state.criteria == st.criteria
            && r.state.net == Note(p.net, Finished(DLRN, p.error.None?))
  {
    hide Valid, Check, Only, CheckPasses, DlrnClientSpec.Promote, After;
    PassedIsRead(st.net, names, st.stored);
    CheckOutcome(st.net, names, st.stored);
    CheckRecordsNothing(st.net, names, st.stored);
    var check := Check(st.net, names, st.stored);
    called := Note(check.net, Called(DLRN, target, h));
    OneAdded(check.net.trace, Called(DLRN, target, h), IsCall);
    NoneAdded(check.net.trace, called.trace, IsPost);
    assert [DLRN][1..] == [];
  }

  // ---- What a post and a normal return need ----

  lemma {:induction false} Furthest(net: Net, names: seq<string>, stored: map<string, Hash>, clients: seq<string>,
                                    m: nat)
    returns (k: nat)
    requires m <= |clients| && forall i | 0 <= i < m :: IsClient(clients[i]) && clients[i] != DLRN
    ensures k <= m && GetThrough(net, names, stored, clients, k)
    ensures k < m ==> !GetsThrough(net, names, stored, k)
    decreases m
  {
    hide Valid, GetsThrough;
    if m == 0 {
      k := 0;
    } else {
      k := Furthest(net, names, stored, clients, m - 1);
      if k == m - 1 && GetsThrough(net, names, stored, k) {
        k := m;
      }
    }
  }

  /** How many clients there are beside the DLRN client, which comes last. */
  function Others(clients: seq<string>): nat {
    if clients != [] && clients[|clients| - 1] == DLRN then |clients| - 1 else |clients|
  }

  lemma OthersAreOthers(clients: seq<string>)
    requires Descending(clients) && Distinct(clients) && forall c | c in clients :: IsClient(c)
    ensures forall i | 0 <= i < Others(clients) :: IsClient(clients[i]) && clients[i] != DLRN
    ensures DLRN in clients <==> Others(clients) < |clients|
  {
    forall i: nat | i < Others(clients) ensures IsClient(clients[i]) && clients[i] != DLRN {
      assert clients[i] in clients;
      if clients[i] == DLRN {
        DlrnComesLast(clients, i);
      }
    }
  }

  /** In any environment: a post, or a normal return, needs every client but the DLRN client to have got
      through, check and call; and the promotion returns normally if and only if they did, and the
      DLRN client, if it is among them, passed its check and completed its own promotion. */
  lemma ReturnsIff(names: seq<string>, st: State, clients: seq<string>, h: Hash, target: string)
    requires Distinct(names) && Descending(clients) && Distinct(clients) && forall c | c in clients :: IsClient(c)
    ensures var r, m := PromoteWith(names, st, clients, h, target), Others(clients);
            var start := After(st.net, Before(names, m));
            && (Only(r.state.net.trace, IsPost) != Only(st.net.trace, IsPost) ==>
                 DLRN in clients && GetThrough(st.net, names, st.stored, clients, m)
                 && CheckPasses(start, names, st.stored))
            && (r.error.None? <==>
                 && GetThrough(st.net, names, st.stored, clients, m)
                 && (DLRN in clients ==>
                      && CheckPasses(start, names, st.stored)
                      && DlrnClientSpec.Promote(After(start, |names|), st.stored, h, target, true).error.None?))
  {
    hide Valid, Check, Only, CheckPasses, GetThrough, CallsOf, Before, After, TurnAt;
    hide DlrnClientSpec.Promote, PromoteWith;
    OthersAreOthers(clients);
    var m := Others(clients);
    var k := Furthest(st.net, names, st.stored, clients, m);
    if k < m {
      NotThrough(st.net, names, st.stored, clients, k, m);
      if CheckPasses(After(st.net, Before(names, k)), names, st.stored) {
        FailedClientStops(names, st, clients, h, target, k);
      } else {
        FailedCheckStops(names, st, clients, h, target, k);
      }
    } else if m == |clients| {
      AllReturn(names, st, clients, h, target);
    } else if CheckPasses(After(st.net, Before(names, m)), names, st.stored) {
      var called := DlrnClientDecides(names, st, clients, h, target);
      AfterAfter(st.net, Before(names, m), |names|);
      BarePromote(called, After(After(st.net, Before(names, m)), |names|), st.stored, h, target, true);
    } else {
      FailedCheckStops(names, st, clients, h, target, m);
    }
  }

  lemma NotThrough(net: Net, names: seq<string>, stored: map<string, Hash>, clients: seq<string>, k: nat, m: nat)
    requires k < m <= |clients| && !GetsThrough(net, names, stored, k)
    ensures !GetThrough(net, names, stored, clients, m)
  {
  }

  /** The same for the clients a configuration allows. */
  lemma DrivingReturnsIff(s: Settings, st: State, h: Hash, target: string)
    requires WellConfigured(s)
    ensures var r, names := DriveClients(s, st, h, target), Targets(s.promotions);
            var clients := SortDescending(s.allowedClients);
            var m := Others(clients);
            var start := After(st.net, Before(names, m));
            && (Only(r.state.net.trace, IsPost) != Only(st.net.trace, IsPost) ==>
                 GetThrough(st.net, names, st.stored, clients, m) && CheckPasses(start, names, st.stored))
            && (r.error.None? <==>
                 && GetThrough(st.net, names, st.stored, clients, m)
                 && (DLRN in s.allowedClients ==>
                      && CheckPasses(start, names, st.stored)
                      && DlrnClientSpec.Promote(After(start, |names|), st.stored, h, target, true).error.None?))
  {
    hide Valid, Only, CheckPasses, GetThrough, Before, DlrnClientSpec.Promote, PromoteWith;
    SortKeepsClients(s.allowedClients);
    ReturnsIff(Targets(s.promotions), st, SortDescending(s.allowedClients), h, target);
  }
}
