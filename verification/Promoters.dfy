/** logic.py: the promoter object. Its configuration holds the criteria sets that judging edits,
    and its DLRN client the named hashes that promoting updates. */
module Promoters {
  import opened Outcomes
  import opened DlrnHashes
  import opened PromotionApi
  import opened Criteria
  import opened ClientOrder
  import opened DlrnClients
  import Client = DlrnClientSpec
  import Spec = PromoterSpec

  class Config {
    const settings: Spec.Settings
    /** `promotions[target]['criteria']`: one set per target, shared by everyone who asks. */
    var criteria: map<string, set<string>>

    constructor (settings: Spec.Settings, criteria: map<string, set<string>>)
      ensures this.settings == settings && this.criteria == criteria
    {
      this.settings := settings;
      this.criteria := criteria;
    }
  }

  /** A candidate at which the selection stops. */
  predicate Stops(h: Hash, promoted: seq<Hash>, sameLabel: bool) {
    sameLabel || Spec.InHistory(h, promoted)
  }

  /** Stopping at the first promoted candidate is the selection. */
  lemma {:induction false} SelectStops(candidates: seq<Hash>, promoted: seq<Hash>, sameLabel: bool, k: nat)
    requires k <= |candidates|
    requires forall i | 0 <= i < k :: !Stops(candidates[i], promoted, sameLabel)
    requires k < |candidates| ==> Stops(candidates[k], promoted, sameLabel)
    ensures Spec.Select(candidates, promoted, sameLabel) == candidates[..k]
  {
    hide Valid, Spec.InHistory;
    if k == 0 {
    } else {
      assert !Stops(candidates[0], promoted, sameLabel);
      forall i | 0 <= i < k - 1 ensures !Stops(candidates[1..][i], promoted, sameLabel) {
        assert !Stops(candidates[i + 1], promoted, sameLabel);
      }
      SelectStops(candidates[1..], promoted, sameLabel, k - 1);
      assert candidates[..k] == [candidates[0]] + candidates[1..][..k - 1];
    }
  }

  /** A full hash occurs among the hashes. */
  predicate OccursIn(f: string, hashes: seq<Hash>) {
    exists h | h in hashes :: FullHash(h) == f
  }

  lemma OccursInNext(hashes: seq<Hash>, i: nat)
    requires i < |hashes|
    ensures forall f :: OccursIn(f, hashes[..i + 1]) <==> OccursIn(f, hashes[..i]) || FullHash(hashes[i]) == f
  {
    hide DlrnHashes.Valid, FullHash;
    var shorter, longer := hashes[..i], hashes[..i + 1];
    assert longer == shorter + [hashes[i]];
    forall f ensures OccursIn(f, longer) <==> OccursIn(f, shorter) || FullHash(hashes[i]) == f {
      if OccursIn(f, longer) {
        var h :| h in longer && FullHash(h) == f;
        assert h in shorter || h == hashes[i];
      }
      if OccursIn(f, shorter) {
        var h :| h in shorter && FullHash(h) == f;
        assert h in longer;
      }
      assert hashes[i] in longer;
    }
  }

  lemma NoneOccurs(hashes: seq<Hash>)
    requires hashes == []
    ensures forall f :: !OccursIn(f, hashes)
  {
  }

  /** A candidate carries the target label in the map of labels. */
  predicate Carries(h: Hash, promoted: seq<Hash>, candidateLabel: string, targetLabel: string) {
    candidateLabel == targetLabel || OccursIn(FullHash(h), promoted)
  }

  lemma CarriesStops(candidates: seq<HashObject>, oldHashes: seq<HashObject>, candidateLabel: string,
                     targetLabel: string, k: nat)
    requires k <= |candidates|
    requires forall i | 0 <= i < k :: !Carries(candidates[i].Value(), Values(oldHashes), candidateLabel, targetLabel)
    requires k < |candidates| ==> Carries(candidates[k].Value(), Values(oldHashes), candidateLabel, targetLabel)
    ensures Values(candidates[..k]) == Spec.Select(Values(candidates), Values(oldHashes), candidateLabel == targetLabel)
  {
    hide DlrnHashes.Valid, FullHash;
    forall i | 0 <= i < k
      ensures !Stops(Values(candidates)[i], Values(oldHashes), candidateLabel == targetLabel)
    {
      assert !Carries(candidates[i].Value(), Values(oldHashes), candidateLabel, targetLabel);
    }
    SelectStops(Values(candidates), Values(oldHashes), candidateLabel == targetLabel, k);
    assert Values(candidates[..k]) == Values(candidates)[..k];
  }

  class Promoter {
    const world: World
    const config: Config
    const dlrnClient: DlrnClient

    constructor (config: Config, dlrnClient: DlrnClient)
      requires dlrnClient.promotions == Spec.Targets(config.settings.promotions)
      ensures this.config == config && this.dlrnClient == dlrnClient && Valid()
    {
      this.world := dlrnClient.world;
      this.config := config;
      this.dlrnClient := dlrnClient;
    }

    /** The promoter and its client use one server and one list of targets. */
    predicate Valid() {
      && dlrnClient.world == world
      && dlrnClient.promotions == Spec.Targets(config.settings.promotions)
    }

    ghost function State(): Spec.State
      reads world, config, dlrnClient, dlrnClient.namedHashesMap.Values
    {
      Spec.State(world.net, dlrnClient.Stored(), config.criteria)
    }

    /** The promoter is where the specification says. After an unreadable reply the candidate has
        lost its timestamp, so the stored hashes are left open; such a run is over. */
    ghost predicate Reaches(state: Spec.State, error: Option<Error>)
      reads world, config, dlrnClient, dlrnClient.namedHashesMap.Values
    {
      && world.net == state.net
      && config.criteria == state.criteria
      && (error != Some(DlrnHashError) ==> dlrnClient.Stored() == state.stored)
    }

    /** `select_candidates`. */
    method SelectCandidates(candidateLabel: string, targetLabel: string) returns (r: Outcome<seq<HashObject>>)
      requires Valid()
      modifies world
      ensures var s := Spec.SelectCandidates(old(world.net), candidateLabel, targetLabel,
          config.settings.latestHashesCount);
              && world.net == s.0
              && match s.1
                 case Raised(e) => r == Raised(e)
                 case Returned(hs) => r.Returned? && fresh(r.value) && Values(r.value) == hs
    {
      hide DlrnHashes.Valid, FullHash, Client.Fetch, Spec.Select, Carries, OccursIn, Advance, NextTurn, Values;
      var fetched := dlrnClient.FetchPromotions(candidateLabel, config.settings.latestHashesCount);
      if fetched.Raised? {
        return Raised(fetched.error);
      }
      if fetched.value.One? {
        return Raised(TypeError);
      }
      var candidates := fetched.value.hashes;
      if candidates == [] {
        return Returned([]);
      }
      var earlier := dlrnClient.FetchPromotions(targetLabel, None);
      if earlier.Raised? {
        return Raised(earlier.error);
      }
      var oldHashes := match earlier.value case One(h) => [h] case Many(hs) => hs;
      if earlier.value.One? {
        assert Values(oldHashes) == [earlier.value.hash.Value()];
      }
      var k := FirstPromoted(candidates, oldHashes, candidateLabel, targetLabel);
      CarriesStops(candidates, oldHashes, candidateLabel, targetLabel, k);
      return Returned(candidates[..k]);
    }

    /** The map of candidate hashes to the labels they carry, at first the candidate label. */
    method MapCandidates(candidates: seq<HashObject>, candidateLabel: string)
      returns (labels: map<string, map<string, Attr>>)
      ensures forall j | 0 <= j < |candidates| :: FullHash(candidates[j].Value()) in labels
      ensures forall f | f in labels :: labels[f].Keys == {candidateLabel}
    {
      hide DlrnHashes.Valid, FullHash;
      labels := map[];
      for i := 0 to |candidates|
        invariant forall j | 0 <= j < i :: FullHash(candidates[j].Value()) in labels
        invariant forall f | f in labels :: labels[f].Keys == {candidateLabel}
      {
        labels := labels[FullHash(candidates[i].Value()) := map[candidateLabel := candidates[i].timestamp]];
      }
    }

    /** Marking those in the map that carry the target label. */
    method MarkPromoted(labels: map<string, map<string, Attr>>, oldHashes: seq<HashObject>, candidateLabel: string,
                        targetLabel: string)
      returns (marked: map<string, map<string, Attr>>)
      requires forall f | f in labels :: labels[f].Keys == {candidateLabel}
      ensures marked.Keys == labels.Keys
      ensures forall f | f in marked ::
                targetLabel in marked[f] <==> candidateLabel == targetLabel || OccursIn(f, Values(oldHashes))
    {
      hide DlrnHashes.Valid, FullHash, OccursIn;
      marked := labels;
      ghost var listed := Values(oldHashes);
      NoneOccurs(listed[..0]);
      for i := 0 to |oldHashes|
        invariant marked.Keys == labels.Keys
        invariant forall f | f in marked ::
                    targetLabel in marked[f] <==> candidateLabel == targetLabel || OccursIn(f, listed[..i])
      {
        var f := FullHash(oldHashes[i].Value());
        OccursInNext(listed, i);
        if f in marked {
          marked := marked[f := marked[f][targetLabel := oldHashes[i].timestamp]];
        }
      }
      assert listed[..|oldHashes|] == listed;
    }

    /** The first candidate in the map that carries the target label. */
    method FirstPromoted(candidates: seq<HashObject>, oldHashes: seq<HashObject>, candidateLabel: string,
                         targetLabel: string)
      returns (k: nat)
      ensures k <= |candidates|
      ensures forall i | 0 <= i < k :: !Carries(candidates[i].Value(), Values(oldHashes), candidateLabel, targetLabel)
      ensures k < |candidates| ==> Carries(candidates[k].Value(), Values(oldHashes), candidateLabel, targetLabel)
    {
      hide DlrnHashes.Valid, FullHash, OccursIn;
      var candidateHashes := MapCandidates(candidates, candidateLabel);
      var labels := MarkPromoted(candidateHashes, oldHashes, candidateLabel, targetLabel);
      k := 0;
      while k < |candidates|
        invariant k <= |candidates|
        invariant forall i | 0 <= i < k ::
            !Carries(candidates[i].Value(), Values(oldHashes), candidateLabel, targetLabel)
      {
        if targetLabel in labels[FullHash(candidates[k].Value())] {
          break;
        }
        k := k + 1;
      }
    }

    /** One client's `promote`. */
    method RunClient(client: string, candidateHash: HashObject, targetLabel: string) returns (error: Option<Error>)
      requires Valid()
      modifies world, dlrnClient`namedHashesMap, candidateHash`timestamp
      ensures var r := Spec.RunClient(old(State()), client, old(candidateHash.Value()), targetLabel);
              error == r.error && Reaches(r.state, error)
      ensures error != Some(DlrnHashError) ==> candidateHash.Value() == old(candidateHash.Value())
    {
      hide DlrnHashes.Valid, Client.Promote, Advance, NextTurn;
      world.Record(Called(client, targetLabel, candidateHash.Value()));
      if client == DLRN {
        error := dlrnClient.Promote(candidateHash, targetLabel, true);
      } else {
        var turn := world.Call();
        error := turn.fault;
      }
      world.Record(Finished(client, error.None?));
    }

    /** `promote`, with the configured clients. */
    method Promote(candidateHash: HashObject, targetLabel: string) returns (error: Option<Error>)
      requires Valid()
      modifies world, dlrnClient`namedHashesMap, candidateHash`timestamp
      ensures var r := Spec.DriveClients(config.settings, old(State()), old(candidateHash.Value()), targetLabel);
              error == r.error && Reaches(r.state, error)
      ensures error != Some(DlrnHashError) ==> candidateHash.Value() == old(candidateHash.Value())
    {
      hide DlrnHashes.Valid, Spec.RunClient, Client.Check;
      var allowedClients := SortDescending(config.settings.allowedClients);
      ghost var names := Spec.Targets(config.settings.promotions);
      ghost var goal := Spec.PromoteWith(names, State(), allowedClients, candidateHash.Value(), targetLabel);
      for n := 0 to |allowedClients|
        invariant candidateHash.Value() == old(candidateHash.Value()) && config.criteria == old(config.criteria)
        invariant goal == Spec.PromoteWith(names, State(), allowedClients[n..], candidateHash.Value(), targetLabel)
      {
        var clientName := allowedClients[n];
        if !IsClient(clientName) {
          return Some(AttributeError);
        }
        error := dlrnClient.CheckNamedHashesUnchanged();
        if error.Some? {
          return;
        }
        error := RunClient(clientName, candidateHash, targetLabel);
        if error.Some? {
          return;
        }
      }
      return None;
    }

    /** One candidate's verdict: switch alternatives in the configured set, and see what is missing. */
    method JudgeCandidate(candidateHash: HashObject, p: Spec.Promotion, successfulJobs: set<string>)
      returns (missingJobs: set<string>)
      requires Valid() && p.target in config.criteria
      modifies world, config`criteria
      ensures State() == Spec.Judge(old(State()), candidateHash.Value(), p, successfulJobs)
      ensures p.target in config.criteria && missingJobs == config.criteria[p.target] - successfulJobs
    {
      hide DlrnHashes.Valid, Substitute;
      var switched := SwitchAlternatives(config.criteria[p.target], p.alternatives, successfulJobs);
      config.criteria := config.criteria[p.target := switched.value];
      missingJobs := config.criteria[p.target] - successfulJobs;
      world.Record(Judged(p.target, candidateHash.Value(), successfulJobs, missingJobs));
    }

    /** The call of `promote` for a candidate that met the criteria. */
    method AttemptCandidate(candidateHash: HashObject, targetLabel: string) returns (error: Option<Error>)
      requires Valid()
      modifies world, dlrnClient`namedHashesMap, candidateHash`timestamp
      ensures var st, h := old(State()), old(candidateHash.Value());
              var attempted := st.(net := Note(st.net, Attempt(targetLabel, h)));
              var r := Spec.DriveClients(config.settings, attempted, h, targetLabel);
              error == r.error && Reaches(r.state, error)
      ensures error != Some(DlrnHashError) ==> candidateHash.Value() == old(candidateHash.Value())
    {
      hide DlrnHashes.Valid, Spec.DriveClients;
      world.Record(Attempt(targetLabel, candidateHash.Value()));
      error := Promote(candidateHash, targetLabel);
    }

    /** What trying the n-th candidate means for the rest of the loop. */
    static lemma TryNext(s: Spec.Settings, st: Spec.State, hashes: seq<Hash>, n: nat, p: Spec.Promotion)
      requires p.target in st.criteria && n < |hashes|
      ensures var turn, asked := NextTurn(st.net), st.(net := Advance(st.net));
              var judged := Spec.Judge(asked, hashes[n], p, turn.votes);
              Spec.TryCandidates(s, st, hashes[n..], p) ==
              if ApiFault(turn).Some? then Spec.Tried(asked, None, ApiFault(turn))
              else if judged.criteria[p.target] - turn.votes != {}
                  then Spec.TryCandidates(s, judged, hashes[n + 1..], p)
              else
                var r := Spec.DriveClients(s, judged.(net := Note(judged.net, Attempt(p.target, hashes[n]))),
                    hashes[n], p.target);
                Spec.Tried(r.state, if r.error.None? then Some(hashes[n]) else None, r.error)
    {
      hide DlrnHashes.Valid, Spec.DriveClients, Advance, NextTurn, Substitute;
      assert hashes[n..][1..] == hashes[n + 1..];
    }

    /** One round of the loop over the candidates: fetch the jobs, judge, and attempt the candidate
        if nothing is missing. */
    method TryOne(candidateHash: HashObject, p: Spec.Promotion) returns (stop: bool, error: Option<Error>)
      requires Valid() && p.target in config.criteria
      modifies world, dlrnClient`namedHashesMap, config`criteria, candidateHash`timestamp
      ensures var st, h, turn := old(State()), old(candidateHash.Value()), NextTurn(old(world.net));
              var asked := st.(net := Advance(st.net));
              var judged := Spec.Judge(asked, h, p, turn.votes);
              if ApiFault(turn).Some? then stop && error == ApiFault(turn) && State() == asked
              else if judged.criteria[p.target] - turn.votes != {} then !stop && error.None? && State() == judged
              else
                var attempted := judged.(net := Note(judged.net, Attempt(p.target, h)));
                var r := Spec.DriveClients(config.settings, attempted, h, p.target);
                stop && error == r.error && Reaches(r.state, error)
      ensures p.target in config.criteria
      ensures error != Some(DlrnHashError) ==> candidateHash.Value() == old(candidateHash.Value())
    {
      hide DlrnHashes.Valid, Spec.DriveClients, Spec.Judge, Advance, NextTurn;
      var turn := world.Call();
      if ApiFault(turn).Some? {
        return true, ApiFault(turn);
      }
      var missingJobs := JudgeCandidate(candidateHash, p, turn.votes);
      if missingJobs != {} {
        return false, None;
      }
      error := AttemptCandidate(candidateHash, p.target);
      stop := true;
    }

    /** The loop of `promote_label_to_label`: the configured set is edited in place. */
    method TryCandidates(candidates: seq<HashObject>, p: Spec.Promotion)
      returns (promoted: Option<HashObject>, error: Option<Error>)
      requires Valid() && p.target in config.criteria
      modifies world, dlrnClient`namedHashesMap, config`criteria, candidates
      ensures var r := Spec.TryCandidates(config.settings, old(State()), old(Values(candidates)), p);
              && error == r.error && Reaches(r.state, error)
              && match r.promoted
                 case None => promoted.None?
                 case Some(h) => promoted.Some? && promoted.value in candidates && promoted.value.Value() == h
    {
      hide DlrnHashes.Valid, Spec.DriveClients, Spec.TryCandidates, Spec.Judge, Advance, NextTurn, Values;
      ghost var hashes := Values(candidates);
      ghost var goal := Spec.TryCandidates(config.settings, State(), hashes, p);
      for n := 0 to |candidates|
        invariant p.target in config.criteria && Values(candidates) == hashes
        invariant goal == Spec.TryCandidates(config.settings, State(), hashes[n..], p)
      {
        TryNext(config.settings, State(), hashes, n, p);
        var stop;
        stop, error := TryOne(candidates[n], p);
        if stop {
          return if error.None? then Some(candidates[n]) else None, error;
        }
      }
      NoneLeft(config.settings, State(), hashes[|candidates|..], p);
      return None, None;
    }

    static lemma NoneLeft(s: Spec.Settings, st: Spec.State, hashes: seq<Hash>, p: Spec.Promotion)
      requires p.target in st.criteria && hashes == []
      ensures Spec.TryCandidates(s, st, hashes, p) == Spec.Tried(st, None, None)
    {
    }

    /** `promote_label_to_label`. */
    method PromoteLabelToLabel(p: Spec.Promotion) returns (promoted: Option<HashObject>, error: Option<Error>)
      requires Valid()
      modifies world, dlrnClient`namedHashesMap, config`criteria
      ensures var r := Spec.PromoteLabel(config.settings, old(State()), p);
              && error == r.error && Reaches(r.state, error)
              && match r.promoted
                 case None => promoted.None?
                 case Some(h) => promoted.Some? && fresh(promoted.value) && promoted.value.Value() == h
    {
      hide DlrnHashes.Valid, Spec.SelectCandidates, Spec.TryCandidates, Values;
      var selected := SelectCandidates(p.candidate, p.target);
      if selected.Raised? {
        return None, Some(selected.error);
      }
      var candidates := selected.value;
      if candidates == [] {
        return None, None;
      }
      if p.target !in config.criteria {
        return None, Some(KeyError);
      }
      promoted, error := TryCandidates(candidates, p);
    }

    /** `promote_all`. */
    method PromoteAll() returns (pairs: seq<(HashObject, string)>, error: Option<Error>)
      requires Valid()
      modifies world, dlrnClient`namedHashesMap, config`criteria
      ensures var r := Spec.PromoteAll(config.settings, old(State()));
              && error == r.error && Reaches(r.state, error)
              && PairValues(pairs) == r.pairs
    {
      hide DlrnHashes.Valid, Spec.PromoteLabel, Client.FetchNamed, PairValues, NamedValues;
      pairs := [];
      NoPairs();
      var promotions := config.settings.promotions;
      ghost var objects := dlrnClient.namedHashesMap;
      var named, failure := dlrnClient.FetchCurrentNamedHashes(true);
      NamedSum(objects, named);
      if failure.Some? {
        return pairs, failure;
      }
      ghost var goal := Spec.PromoteRest(config.settings, State(), promotions, []);
      for n := 0 to |promotions|
        invariant goal == Spec.PromoteRest(config.settings, State(), promotions[n..], PairValues(pairs))
        invariant forall pair | pair in pairs :: fresh(pair.0)
      {
        assert promotions[n..][0] == promotions[n] && promotions[n..][1..] == promotions[n + 1..];
        ghost var st, was := State(), PairValues(pairs);
        var promoted, failed := PromoteLabelToLabel(promotions[n]);
        assert PairValues(pairs) == was;
        if failed.Some? && failed != Some(PromotionError) {
          return pairs, failed;
        }
        if promoted.Some? {
          PairAdded(pairs, promoted.value, promotions[n].target);
          pairs := pairs + [(promoted.value, promotions[n].target)];
        }
      }
      return pairs, None;
    }
  }

  lemma NamedSum(objects: map<string, HashObject>, named: map<string, HashObject>)
    ensures NamedValues(objects + named) == NamedValues(objects) + NamedValues(named)
  {
    hide DlrnHashes.Valid;
  }

  lemma PairAdded(pairs: seq<(HashObject, string)>, h: HashObject, target: string)
    ensures PairValues(pairs + [(h, target)]) == PairValues(pairs) + [(h.Value(), target)]
  {
    hide DlrnHashes.Valid;
    assert (pairs + [(h, target)])[..|pairs|] == pairs;
  }

  lemma NoPairs()
    ensures PairValues([]) == []
  {
  }

  function PairValues(pairs: seq<(HashObject, string)>): (r: seq<(Hash, string)>)
    reads set pair | pair in pairs :: pair.0
  {
    if pairs == [] then []
    else PairValues(pairs[..|pairs| - 1]) + [(pairs[|pairs| - 1].0.Value(), pairs[|pairs| - 1].1)]
  }
}
