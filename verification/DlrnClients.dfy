/** dlrn_client.py: the client object, whose stored named hashes are shared, mutable objects. */
module DlrnClients {
  import opened Outcomes
  import opened DlrnHashes
  import opened PromotionApi
  import opened Labels
  import Spec = DlrnClientSpec

  /** A hash object. Only its timestamp is assigned after construction. */
  class HashObject {
    const core: Hash
    var timestamp: Attr

    constructor (h: Hash)
      ensures Value() == h
    {
      core := h;
      timestamp := h.timestamp;
    }

    function Value(): Hash
      reads this
    {
      core.(timestamp := timestamp)
    }
  }

  function Values(objects: seq<HashObject>): (r: seq<Hash>)
    reads objects
    ensures |r| == |objects|
    ensures forall i | 0 <= i < |r| :: r[i] == objects[i].Value()
  {
    if objects == [] then [] else Values(objects[..|objects| - 1]) + [objects[|objects| - 1].Value()]
  }

  function NamedValues(objects: map<string, HashObject>): map<string, Hash>
    reads objects.Values
  {
    map l | l in objects :: objects[l].Value()
  }

  /** `hashes_to_hashes(api_hashes, remove_duplicates=True)`. */
  method HashesToHashes(apiHashes: seq<ApiHash>) returns (r: Outcome<seq<HashObject>>)
    ensures match Spec.ConvertAll(apiHashes, [])
            case Raised(e) => r == Raised(e)
            case Returned(hs) => r.Returned? && fresh(r.value) && Values(r.value) == hs
  {
    hide Valid, Spec.Convert, Spec.ConvertAll, Eq;
    var hashList: seq<HashObject> := [];
    for n := 0 to |apiHashes|
      invariant fresh(hashList)
      invariant Spec.ConvertAll(apiHashes, []) == Spec.ConvertAll(apiHashes[n..], Values(hashList))
    {
      var hashes := apiHashes[n];
      ConvertNext(apiHashes, n, Values(hashList));
      match Spec.Convert(hashes) {
        case Raised(e) => return Raised(e);
        case Returned(None) =>
        case Returned(Some(h)) =>
          if !(exists d | d in Values(hashList) :: Eq(d, h)) {
            ghost var before := Values(hashList);
            var hashObj := new HashObject(h);
            hashList := hashList + [hashObj];
            assert Values(hashList) == before + [h];
          }
      }
    }
    Spec.ConvertNone(apiHashes[|apiHashes|..], Values(hashList));
    return Returned(hashList);
  }

  /** What converting the n-th entry means for the rest of the loop. */
  lemma ConvertNext(rs: seq<ApiHash>, n: nat, done: seq<Hash>)
    requires n < |rs|
    ensures var c := Spec.Convert(rs[n]);
            Spec.ConvertAll(rs[n..], done) ==
            if c.Raised? then Raised(c.error)
            else if c.value.None? || exists d | d in done :: Eq(d, c.value.value)
                then Spec.ConvertAll(rs[n + 1..], done)
            else Spec.ConvertAll(rs[n + 1..], done + [c.value.value])
  {
    hide Valid, Spec.Convert, Eq;
    assert rs[n..][1..] == rs[n + 1..];
  }

  /** Storing an object adds its value under its name. */
  lemma StoringAdds(objects: map<string, HashObject>, was: map<string, Hash>, dlrnHash: HashObject, name: string)
    requires objects.Keys == was.Keys && forall l | l in objects :: objects[l].Value() == was[l]
    ensures NamedValues(objects[name := dlrnHash]) == was[name := dlrnHash.Value()]
  {
    hide Valid;
  }

  /** What fetching the n-th name means for the rest of the loop. */
  lemma FetchNext(net: Net, names: seq<string>, n: nat, done: map<string, Hash>)
    requires n < |names|
    ensures var latest := Spec.FetchLatest(net, names[n]);
            Spec.FetchNamed(net, names[n..], done) ==
            if latest.Raised? then Spec.Named(Advance(net), done, Some(latest.error))
            else
              var fetched := if latest.value.None? then done else done[names[n] := latest.value.value];
              Spec.FetchNamed(Advance(net), names[n + 1..], fetched)
  {
    hide Valid, Spec.FetchLatest, Advance;
    assert names[n..][1..] == names[n + 1..];
  }

  lemma NoMoreNames(net: Net, names: seq<string>, done: map<string, Hash>)
    requires names == []
    ensures Spec.FetchNamed(net, names, done) == Spec.Named(net, done, None)
  {
  }

  lemma UpdateSum<K, V>(a: map<K, V>, b: map<K, V>, k: K, v: V)
    ensures a + b[k := v] == (a + b)[k := v]
  {
  }

  class DlrnClient {
    const world: World
    /** The configured target labels, in order. */
    const promotions: seq<string>
    var namedHashesMap: map<string, HashObject>

    constructor (world: World, promotions: seq<string>)
      ensures this.world == world && this.promotions == promotions && namedHashesMap == map[]
    {
      this.world := world;
      this.promotions := promotions;
      namedHashesMap := map[];
    }

    ghost function Stored(): map<string, Hash>
      reads this, namedHashesMap.Values
    {
      NamedValues(namedHashesMap)
    }

    method FetchPromotions(name: string, count: Option<int>) returns (r: Outcome<Spec.Fetched<HashObject>>)
      modifies world
      ensures world.net == Advance(old(world.net))
      ensures match Spec.Fetch(old(world.net), name, count)
              case Raised(e) => r == Raised(e)
              case Returned(One(h)) => r.Returned? && r.value.One? && fresh(r.value.hash) && r.value.hash.Value() == h
              case Returned(Many(hs)) =>
                && r.Returned? && r.value.Many? && fresh(r.value.hashes)
                && Values(r.value.hashes) == hs
    {
      var turn := world.Call();
      if ApiFault(turn).Some? {
        return Raised(ApiFault(turn).value);
      }
      var apiHashes := Spec.Answer(world.net, name, count);
      var hashes := HashesToHashes(apiHashes);
      match hashes
      case Raised(e) => return Raised(e);
      case Returned(hashList) => return Returned(Spec.Package(hashList, count));
    }

    /** `fetch_promotions(name, count=1)`: a hash, or an empty list. */
    method FetchLatest(name: string) returns (r: Outcome<Option<HashObject>>)
      modifies world
      ensures world.net == Advance(old(world.net))
      ensures match Spec.FetchLatest(old(world.net), name)
              case Raised(e) => r == Raised(e)
              case Returned(None) => r == Returned(None)
              case Returned(Some(h)) =>
                && r.Returned? && r.value.Some? && fresh(r.value.value)
                && r.value.value.Value() == h
    {
      hide Valid, Spec.Fetch, Spec.FetchLatest;
      Spec.FetchOne(world.net, name);
      var fetched := FetchPromotions(name, Some(1));
      match fetched
      case Raised(e) => return Raised(e);
      case Returned(Many(_)) => return Returned(None);
      case Returned(One(h)) => return Returned(Some(h));
    }

    /** `fetch_current_named_hashes`: on an error the names fetched before it are already stored. */
    method FetchCurrentNamedHashes(store: bool) returns (named: map<string, HashObject>, error: Option<Error>)
      modifies world, this`namedHashesMap
      ensures forall l | l in named :: fresh(named[l])
      ensures Spec.Named(world.net, NamedValues(named), error) == Spec.FetchNamed(old(world.net), promotions, map[])
      ensures namedHashesMap == if store then old(namedHashesMap) + named else old(namedHashesMap)
    {
      hide Valid, Spec.FetchLatest, Spec.FetchNamed, Advance;
      named := map[];
      for n := 0 to |promotions|
        invariant forall l | l in named :: fresh(named[l])
        invariant Spec.FetchNamed(old(world.net), promotions, map[]) ==
                  Spec.FetchNamed(world.net, promotions[n..], NamedValues(named))
        invariant namedHashesMap == if store then old(namedHashesMap) + named else old(namedHashesMap)
      {
        var promoteName := promotions[n];
        ghost var was := NamedValues(named);
        FetchNext(world.net, promotions, n, was);
        var latestNamed := FetchLatest(promoteName);
        assert NamedValues(named) == was;
        match latestNamed {
          case Raised(e) => return named, Some(e);
          case Returned(None) =>
          case Returned(Some(h)) =>
            StoringAdds(named, was, h, promoteName);
            UpdateSum(old(namedHashesMap), named, promoteName, h);
            named := named[promoteName := h];
            if store {
              namedHashesMap := namedHashesMap[promoteName := h];
            }
        }
      }
      NoMoreNames(world.net, promotions[|promotions|..], NamedValues(named));
      return named, None;
    }

    /** `check_named_hashes_unchanged`. */
    method CheckNamedHashesUnchanged() returns (error: Option<Error>)
      modifies world, this`namedHashesMap
      ensures namedHashesMap == old(namedHashesMap)
      ensures Spec.Step(world.net, Stored(), error) == Spec.Check(old(world.net), promotions, old(Stored()))
    {
      hide Valid, Spec.FetchNamed;
      var latest, failure := FetchCurrentNamedHashes(false);
      if failure.Some? {
        return failure;
      }
      var left := namedHashesMap.Keys;
      while left != {}
        invariant left <= namedHashesMap.Keys
        invariant forall l | l in namedHashesMap && l !in left && l in latest ::
                    Eq(latest[l].Value(), namedHashesMap[l].Value())
      {
        var l :| l in left;
        left := left - {l};
        if l in latest && !Eq(latest[l].Value(), namedHashesMap[l].Value()) {
          assert l in Stored() && l in NamedValues(latest) && !Eq(NamedValues(latest)[l], Stored()[l]);
          world.RecordCheck(NamedValues(namedHashesMap), NamedValues(latest), false);
          return Some(HashChangedError);
        }
      }
      assert !Spec.Changed(Stored(), NamedValues(latest));
      world.RecordCheck(NamedValues(namedHashesMap), NamedValues(latest), true);
      return None;
    }

    /** `get_promotion_aggregate_hashes`, as one step that succeeds or fails. */
    method GetPromotionAggregateHashes() returns (error: Option<Error>)
      modifies world
      ensures world.net == Advance(old(world.net))
      ensures error == AggregateFault(NextTurn(old(world.net)))
    {
      var turn := world.Call();
      error := AggregateFault(turn);
    }

    /** The call of `promote_hash` and what follows it: the hash goes into the map while its
        timestamp is cleared, and gets the timestamp back afterwards, unless the reply could not be
        read. */
    method PostHash(dlrnHash: HashObject, targetLabel: string) returns (error: Option<Error>)
      modifies world, this`namedHashesMap, dlrnHash`timestamp
      ensures var r := Spec.Post(old(world.net), old(Stored()), old(dlrnHash.Value()), targetLabel);
              && world.net == r.net && error == r.error
              && (error != Some(DlrnHashError) ==> Stored() == r.stored)
      ensures namedHashesMap == if error.None? then old(namedHashesMap)[targetLabel := dlrnHash]
                                else old(namedHashesMap)
      ensures dlrnHash.timestamp == if error == Some(DlrnHashError) then Nil else old(dlrnHash.timestamp)
    {
      hide Valid, Advance, NextTurn;
      ghost var objects, was := namedHashesMap, Stored();
      var turn := world.Call();
      if ApiFault(turn).Some? {
        return ApiFault(turn);
      }
      world.Store(turn, targetLabel, DumpToParams(dlrnHash.Value()));
      var storedTimestamp := dlrnHash.timestamp;
      dlrnHash.timestamp := Nil;
      if turn.garbles {
        return Some(DlrnHashError);
      }
      namedHashesMap := namedHashesMap[targetLabel := dlrnHash];
      dlrnHash.timestamp := storedTimestamp;
      StoringAdds(objects, was, dlrnHash, targetLabel);
      return None;
    }

    /** `promote_hash`: an aggregate's components are collected first. */
    method PromoteHash(dlrnHash: HashObject, targetLabel: string) returns (error: Option<Error>)
      modifies world, this`namedHashesMap, dlrnHash`timestamp
      ensures var r := Spec.PromoteHash(old(world.net), old(Stored()), old(dlrnHash.Value()), targetLabel);
              && world.net == r.net && error == r.error
              && (error != Some(DlrnHashError) ==> Stored() == r.stored)
      ensures namedHashesMap == if error.None? then old(namedHashesMap)[targetLabel := dlrnHash]
                                else old(namedHashesMap)
      ensures dlrnHash.timestamp == if error == Some(DlrnHashError) then Nil else old(dlrnHash.timestamp)
    {
      hide Valid, Spec.Post, Advance, NextTurn;
      if dlrnHash.core.kind.Aggregate? {
        error := GetPromotionAggregateHashes();
        if error.Some? {
          return;
        }
      }
      error := PostHash(dlrnHash, targetLabel);
    }

    /** `promote`. */
    method Promote(dlrnHash: HashObject, targetLabel: string, createPrevious: bool) returns (error: Option<Error>)
      modifies world, this`namedHashesMap, dlrnHash`timestamp
      ensures var r := Spec.Promote(old(world.net), old(Stored()), old(dlrnHash.Value()), targetLabel, createPrevious);
              && world.net == r.net && error == r.error
              && (error != Some(DlrnHashError) ==> Stored() == r.stored)
      ensures error != Some(DlrnHashError) ==> dlrnHash.Value() == old(dlrnHash.Value())
    {
      hide Valid, Spec.FetchLatest, Spec.PromoteHash;
      var fetched := FetchLatest(targetLabel);
      if fetched.Raised? {
        return Some(fetched.error);
      }
      if fetched.value.Some? {
        var incumbent := fetched.value.value;
        if Eq(incumbent.Value(), dlrnHash.Value()) {
          return Some(PromotionError);
        }
        if createPrevious {
          error := PromoteHash(incumbent, PreviousLabel(targetLabel));
          if error.Some? {
            return;
          }
        }
      }
      error := PromoteHash(dlrnHash, targetLabel);
    }
  }
}
