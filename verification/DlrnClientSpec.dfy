/** What each operation of dlrn_client.py does to the server, the environment and the stored
    named hashes, as functions on values. DlrnClients.DlrnClient implements them on objects. */
module DlrnClientSpec {
  import opened Outcomes
  import opened DlrnHashes
  import opened PromotionApi
  import opened Labels

  /** An API hash carries the old format, or becomes a hash object, or cannot be converted. */
  function Convert(r: ApiHash): Outcome<Option<Hash>> {
    if !r.extended.Text? then Raised(TypeError)
    else if |r.extended.s| <= 40 then Returned(None)
    else
      match New(FromSource(ApiSource(r)))
      case Raised(e) => Raised(e)
      case Returned(h) => Returned(Some(h))
  }

  /** `hashes_to_hashes(..., remove_duplicates=True)`: order kept, the first of equal hashes kept. */
  function ConvertAll(rs: seq<ApiHash>, done: seq<Hash>): Outcome<seq<Hash>>
    decreases |rs|
  {
    if rs == [] then Returned(done)
    else
      match Convert(rs[0])
      case Raised(e) => Raised(e)
      case Returned(None) => ConvertAll(rs[1..], done)
      case Returned(Some(h)) =>
        ConvertAll(rs[1..], if exists d | d in done :: Eq(d, h) then done else done + [h])
  }

  /** A fetch gives one hash when one was asked for and found, and a list otherwise. */
  datatype Fetched<+T> = One(hash: T) | Many(hashes: seq<T>)

  /** The API's answer to a promotions query: the newest entries of the label. */
  function Answer(net: Net, name: string, count: Option<int>): seq<ApiHash> {
    var limit := match count case Some(n) => n case None => net.page;
    Take(History(net, name), if limit < 0 then net.page else limit)
  }

  function Package<T>(hashes: seq<T>, count: Option<int>): Fetched<T> {
    if count == Some(1) && hashes != [] then One(hashes[0]) else Many(hashes)
  }

  /** `fetch_promotions(name, count)`. */
  function Fetch(net: Net, name: string, count: Option<int>): Outcome<Fetched<Hash>> {
    match ApiFault(NextTurn(net))
    case Some(e) => Raised(e)
    case None =>
      match ConvertAll(Answer(Advance(net), name, count), [])
      case Raised(e) => Raised(e)
      case Returned(hashes) => Returned(Package(hashes, count))
  }

  /** What the newest entry of a label reads as. */
  function Latest(net: Net, name: string): Outcome<Option<Hash>> {
    match Head(net, name)
    case None => Returned(None)
    case Some(r) => Convert(r)
  }

  /** `fetch_promotions(name, count=1)`, as FetchOne shows. */
  function FetchLatest(net: Net, name: string): Outcome<Option<Hash>> {
    match ApiFault(NextTurn(net)) case Some(e) => Raised(e) case None => Latest(Advance(net), name)
  }

  lemma FetchOne(net: Net, name: string)
    ensures Fetch(net, name, Some(1)) ==
            match FetchLatest(net, name)
            case Raised(e) => Raised(e)
            case Returned(None) => Returned(Many([]))
            case Returned(Some(h)) => Returned(One(h))
  {
    hide Valid, Convert;
    var history := History(Advance(net), name);
    if history == [] {
      assert Answer(Advance(net), name, Some(1)) == [];
    } else {
      assert Answer(Advance(net), name, Some(1)) == [history[0]];
      ConvertSingle(history[0]);
    }
  }

  lemma ConvertNone(rs: seq<ApiHash>, done: seq<Hash>)
    requires rs == []
    ensures ConvertAll(rs, done) == Returned(done)
  {
  }

  lemma ConvertSingle(r: ApiHash)
    ensures ConvertAll([r], []) ==
            match Convert(r)
            case Raised(e) => Raised(e)
            case Returned(None) => Returned([])
            case Returned(Some(h)) => Returned([h])
  {
    hide Valid, Convert;
    assert [r][1..] == [];
    match Convert(r)
    case Raised(e) =>
    case Returned(None) => ConvertNone([r][1..], []);
    case Returned(Some(h)) =>
      ConvertNone([r][1..], [] + [h]);
      assert [] + [h] == [h];
  }

  /** A fetch of all named hashes: what was fetched before an error, if one ended it. */
  datatype Named = Named(net: Net, hashes: map<string, Hash>, error: Option<Error>)

  function FetchNamed(net: Net, names: seq<string>, done: map<string, Hash>): (r: Named)
    ensures net.trace <= r.net.trace
    ensures forall i | |net.trace| <= i < |r.net.trace| :: r.net.trace[i].Outside?
    decreases |names|
  {
    if names == [] then Named(net, done, None)
    else
      match FetchLatest(net, names[0])
      case Raised(e) => Named(Advance(net), done, Some(e))
      case Returned(None) => FetchNamed(Advance(net), names[1..], done)
      case Returned(Some(h)) => FetchNamed(Advance(net), names[1..], done[names[0] := h])
  }

  /** A stored name was fetched with a different value. */
  predicate Changed(stored: map<string, Hash>, fetched: map<string, Hash>) {
    exists l | l in stored && l in fetched :: !Eq(fetched[l], stored[l])
  }

  datatype Step = Step(net: Net, stored: map<string, Hash>, error: Option<Error>)

  function Check(net: Net, names: seq<string>, stored: map<string, Hash>): (r: Step)
    ensures net.trace <= r.net.trace
    ensures r.stored == stored
    ensures forall i | |net.trace| <= i < |r.net.trace| ::
              r.net.trace[i].Outside? || r.net.trace[i].Compared? || r.net.trace[i].Checked?
    ensures forall i | |net.trace| <= i < |r.net.trace| :: r.net.trace[i] == Checked(false) ==>
              i == |r.net.trace| - 1 && r.error == Some(HashChangedError)
    ensures r.error.None? ==> |r.net.trace| > |net.trace| && r.net.trace[|r.net.trace| - 1] == Checked(true)
  {
    var named := FetchNamed(net, names, map[]);
    var compared := Note(named.net, Compared(stored, named.hashes));
    if named.error.Some? then Step(named.net, stored, named.error)
    else if Changed(stored, named.hashes) then Step(Note(compared, Checked(false)), stored, Some(HashChangedError))
    else Step(Note(compared, Checked(true)), stored, None)
  }

  /** One post: the server stores it, and unless its reply is garbled the stored named hash of
      the label becomes the promoted hash. */
  function Post(net: Net, stored: map<string, Hash>, h: Hash, name: string): (r: Step)
    ensures net.trace <= r.net.trace
    ensures forall i | |net.trace| <= i < |r.net.trace| ::
              r.net.trace[i].Outside? || r.net.trace[i] == Posted(name, DumpToParams(h))
  {
    var turn := NextTurn(net);
    var asked := Advance(net);
    if ApiFault(turn).Some? then Step(asked, stored, ApiFault(turn))
    else
      var record := DumpToParams(h);
      var posted := Note(Prepend(asked, name, turn.keeps.GetOr(record)), Posted(name, record));
      if turn.garbles then Step(posted, stored, Some(DlrnHashError))
      else Step(posted, stored[name := h], None)
  }

  /** `promote_hash`: one post; for an aggregate, after collecting its components, which may fail. */
  function PromoteHash(net: Net, stored: map<string, Hash>, h: Hash, name: string): (r: Step)
    ensures net.trace <= r.net.trace
    ensures forall i | |net.trace| <= i < |r.net.trace| ::
              r.net.trace[i].Outside? || r.net.trace[i] == Posted(name, DumpToParams(h))
  {
    if h.kind.CommitDistro? then Post(net, stored, h, name)
    else if AggregateFault(NextTurn(net)).Some? then Step(Advance(net), stored, AggregateFault(NextTurn(net)))
    else Post(Advance(net), stored, h, name)
  }

  /** `DlrnClient.promote`. */
  function Promote(net: Net, stored: map<string, Hash>, h: Hash, target: string, createPrevious: bool): (r: Step)
    ensures net.trace <= r.net.trace
    ensures forall i | |net.trace| <= i < |r.net.trace| ::
              || r.net.trace[i].Outside?
              || (r.net.trace[i].Posted? && r.net.trace[i].name == PreviousLabel(target))
              || r.net.trace[i] == Posted(target, DumpToParams(h))
  {
    match FetchLatest(net, target)
    case Raised(e) => Step(Advance(net), stored, Some(e))
    case Returned(incumbent) =>
      if incumbent.Some? && Eq(incumbent.value, h) then
        Step(Advance(net), stored, Some(PromotionError))
      else if createPrevious && incumbent.Some? then
        var saved := PromoteHash(Advance(net), stored, incumbent.value, PreviousLabel(target));
        if saved.error.Some? then saved
        else PromoteHash(saved.net, saved.stored, h, target)
      else PromoteHash(Advance(net), stored, h, target)
  }
}
