/** logic.py as functions on values: candidate selection, judging, driving the clients, and a
    whole promotion run. Promoters.Promoter implements them on objects. */
module PromoterSpec {
  import opened Outcomes
  import opened DlrnHashes
  import opened PromotionApi
  import opened Labels
  import opened Criteria
  import opened DlrnClientSpec
  import opened ClientOrder

  /** One entry of the `promotions` setting, apart from its criteria. */
  datatype Promotion = Promotion(target: string, candidate: string, alternatives: Alternatives)

  datatype Settings = Settings(promotions: seq<Promotion>, allowedClients: seq<string>, latestHashesCount: Option<int>)

  function Targets(ps: seq<Promotion>): (r: seq<string>)
    ensures |r| == |ps| && forall i | 0 <= i < |r| :: r[i] == ps[i].target
  {
    seq(|ps|, i requires 0 <= i < |ps| => ps[i].target)
  }

  /** The server and environment, the stored named hashes, and the criteria held in the config. */
  datatype State = State(net: Net, stored: map<string, Hash>, criteria: map<string, set<string>>)

  // ---- Driving the clients ----

  datatype Result = Result(state: State, error: Option<Error>)

  /** One client's `promote`. The image, registry and dockerfile clients return or raise as the
      environment decides; the DLRN client moves labels. */
  function RunClient(st: State, client: string, h: Hash, target: string): (r: Result)
    ensures st.net.trace + [Called(client, target, h)] <= r.state.net.trace
    ensures r.state.criteria == st.criteria
    ensures r.error.None? ==> r.state.net.trace[|r.state.net.trace| - 1] == Finished(client, true)
    ensures forall i | |st.net.trace| < i < |r.state.net.trace| ::
              var e := r.state.net.trace[i];
              || e.Outside?
              || (e.Finished? && e.client == client)
              || (client == DLRN && e.Posted? && (e.name == PreviousLabel(target)
                  || e == Posted(target, DumpToParams(h))))
  {
    var called := Note(st.net, Called(client, target, h));
    var step := if client == DLRN then DlrnClientSpec.Promote(called, st.stored, h, target, true)
                else Step(Advance(called), st.stored, NextTurn(called).fault);
    Result(st.(net := Note(step.net, Finished(client, step.error.None?)), stored := step.stored), step.error)
  }

  /** The loop of `Promoter.promote` over the sorted clients. */
  function PromoteWith(names: seq<string>, st: State, clients: seq<string>, h: Hash, target: string): (r: Result)
    ensures st.net.trace <= r.state.net.trace
    ensures r.state.criteria == st.criteria
    decreases |clients|
  {
    if clients == [] then Result(st, None)
    else if !IsClient(clients[0]) then Result(st, Some(AttributeError))
    else
      var check := Check(st.net, names, st.stored);
      var checked := st.(net := check.net);
      if check.error.Some? then Result(checked, check.error)
      else
        var run := RunClient(checked, clients[0], h, target);
        if run.error.Some? then run else PromoteWith(names, run.state, clients[1..], h, target)
  }

  /** `Promoter.promote`: for a candidate that met the criteria. */
  function DriveClients(s: Settings, st: State, h: Hash, target: string): (r: Result)
    ensures st.net.trace <= r.state.net.trace
    ensures r.state.criteria == st.criteria
  {
    PromoteWith(Targets(s.promotions), st, SortDescending(s.allowedClients), h, target)
  }

  // ---- Selecting and judging candidates ----

  predicate InHistory(h: Hash, promoted: seq<Hash>) {
    exists p | p in promoted :: FullHash(p) == FullHash(h)
  }

  /** The candidates up to the first that was promoted before; none when the candidates are
      those of the target label itself. */
  function Select(candidates: seq<Hash>, promoted: seq<Hash>, sameLabel: bool): seq<Hash> {
    if candidates == [] || sameLabel || InHistory(candidates[0], promoted) then []
    else [candidates[0]] + Select(candidates[1..], promoted, sameLabel)
  }

  /** `select_candidates`: the hashes, or an error, and the network afterwards. */
  function SelectCandidates(net: Net, candidate: string, target: string, count: Option<int>)
    : (r: (Net, Outcome<seq<Hash>>))
    ensures net.trace <= r.0.trace
    ensures forall i | |net.trace| <= i < |r.0.trace| :: r.0.trace[i].Outside?
  {
    match Fetch(net, candidate, count)
    case Raised(e) => (Advance(net), Raised(e))
    case Returned(One(_)) => (Advance(net), Raised(TypeError))
    case Returned(Many(candidates)) =>
      if candidates == [] then (Advance(net), Returned([]))
      else
        var asked := Advance(net);
        match Fetch(asked, target, None)
        case Raised(e) => (Advance(asked), Raised(e))
        case Returned(One(h)) => (Advance(asked), Returned(Select(candidates, [h], candidate == target)))
        case Returned(Many(hs)) => (Advance(asked), Returned(Select(candidates, hs, candidate == target)))
  }

  datatype Tried = Tried(state: State, promoted: Option<Hash>, error: Option<Error>)

  /** The loop of `promote_label_to_label` over the selected candidates. */
  function TryCandidates(s: Settings, st: State, candidates: seq<Hash>, p: Promotion): (r: Tried)
    requires p.target in st.criteria
    ensures st.net.trace <= r.state.net.trace
    ensures r.state.criteria.Keys == st.criteria.Keys
    decreases |candidates|
  {
    if candidates == [] then Tried(st, None, None)
    else
      var turn := NextTurn(st.net);
      var asked := Advance(st.net);
      if ApiFault(turn).Some? then Tried(st.(net := asked), None, ApiFault(turn))
      else
        var judged := Judge(st.(net := asked), candidates[0], p, turn.votes);
        if judged.criteria[p.target] - turn.votes != {} then TryCandidates(s, judged, candidates[1..], p)
        else
          var r := DriveClients(s, judged.(net := Note(judged.net, Attempt(p.target, candidates[0]))),
              candidates[0], p.target);
          Tried(r.state, if r.error.None? then Some(candidates[0]) else None, r.error)
  }

  /** One candidate's verdict: the configured set is edited in place. */
  function Judge(st: State, h: Hash, p: Promotion, passed: set<string>): (r: State)
    requires p.target in st.criteria
    ensures st.net.trace <= r.net.trace
  {
    var required := Substitute(st.criteria[p.target], p.alternatives, passed);
    st.(criteria := st.criteria[p.target := required],
        net := Note(st.net, Judged(p.target, h, passed, required - passed)))
  }

  /** `promote_label_to_label`. */
  function PromoteLabel(s: Settings, st: State, p: Promotion): (r: Tried) {
    var (net, selected) := SelectCandidates(st.net, p.candidate, p.target, s.latestHashesCount);
    var ready := st.(net := net);
    match selected
    case Raised(e) => Tried(ready, None, Some(e))
    case Returned(candidates) =>
      if candidates == [] then Tried(ready, None, None)
      else if p.target !in st.criteria then Tried(ready, None, Some(KeyError))
      else TryCandidates(s, ready, candidates, p)
  }

  // ---- A whole run ----

  datatype Run = Run(state: State, pairs: seq<(Hash, string)>, error: Option<Error>)

  /** The loop of `promote_all`: a PromotionError moves on to the next target, any other
      exception ends the run. */
  function PromoteRest(s: Settings, st: State, ps: seq<Promotion>, pairs: seq<(Hash, string)>): Run
    decreases |ps|
  {
    if ps == [] then Run(st, pairs, None)
    else
      var r := PromoteLabel(s, st, ps[0]);
      if r.error.Some? && r.error != Some(PromotionError) then Run(r.state, pairs, r.error)
      else
        PromoteRest(s, r.state, ps[1..],
                    if r.promoted.Some? then pairs + [(r.promoted.value, ps[0].target)] else pairs)
  }

  /** `promote_all`. */
  function PromoteAll(s: Settings, st: State): Run {
    var named := FetchNamed(st.net, Targets(s.promotions), map[]);
    var started := st.(net := named.net, stored := st.stored + named.hashes);
    if named.error.Some? then Run(started, [], named.error) else PromoteRest(s, started, s.promotions, [])
  }
}
