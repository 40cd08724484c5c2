/** The DLRN API server as the promoter sees it, together with everything outside the promoter.

    Every call that leaves the promoter consumes one `Turn` of an arbitrary agenda: other
    writers act first, then the call fails or succeeds. Quantifying over agendas therefore
    quantifies over all interleavings with outside writers and all failure patterns. */
module PromotionApi {
  import opened Outcomes
  import opened DlrnHashes

  datatype Write = Write(name: string, hash: ApiHash)

  /** One step of the environment.
      - `writes`: label changes by others, applied before the call;
      - `fault`: the exception the call ends in, if any, of whatever class;
      - `keeps`: what the server stores instead of the posted hash (None: it echoes the post);
      - `garbles`: the server's reply to a post does not describe a hash;
      - `votes`: the successful jobs reported, when the call asks for them. */
  datatype Turn = Turn(writes: seq<Write>, fault: Option<Error>, keeps: Option<ApiHash>,
                       garbles: bool, votes: set<string>)

  /** The exception a call to the DLRN API ends in: its own ApiException or any other class, except
      those that only the promoter's code raises. */
  function ApiFault(t: Turn): Option<Error> {
    if t.fault.Some? && t.fault.value in {PromotionError, HashChangedError, DlrnHashError} then Some(OtherError)
    else t.fault
  }

  /** The exception that collecting the components of an aggregate ends in: a failed download is a
      PromotionError, and other exceptions escape. */
  function AggregateFault(t: Turn): Option<Error> {
    if t.fault == Some(PromotionError) then t.fault else ApiFault(t)
  }

  const QUIET := Turn([], None, None, false, {})

  /** What happened, in order. */
  datatype Event =
    | Outside(write: Write)
    | Judged(target: string, hash: Hash, passed: set<string>, missing: set<string>)
    | Attempt(target: string, hash: Hash)
    | Compared(stored: map<string, Hash>, fetched: map<string, Hash>)
    | Checked(ok: bool)
    | Called(client: string, target: string, hash: Hash)
    | Finished(client: string, ok: bool)
    | Posted(name: string, sent: ApiHash)

  /** Label histories newest first, the remaining agenda, the events so far, and the page
      size the server applies when a query carries no limit. */
  datatype Net = Net(labels: map<string, seq<ApiHash>>, agenda: seq<Turn>, trace: seq<Event>, page: nat)

  function History(net: Net, name: string): seq<ApiHash> {
    if name in net.labels then net.labels[name] else []
  }

  function Head(net: Net, name: string): Option<ApiHash> {
    if History(net, name) == [] then None else Some(History(net, name)[0])
  }

  function Prepend(net: Net, name: string, hash: ApiHash): Net {
    net.(labels := net.labels[name := [hash] + History(net, name)])
  }

  function Note(net: Net, e: Event): (r: Net)
    ensures net.trace <= r.trace
  {
    net.(trace := net.trace + [e])
  }

  /** Outside writes, in order. */
  function Writes(net: Net, ws: seq<Write>): (r: Net)
    ensures net.trace <= r.trace
    ensures forall i | |net.trace| <= i < |r.trace| :: r.trace[i].Outside?
    ensures r.agenda == net.agenda && r.page == net.page
    ensures ws == [] ==> r == net
    decreases |ws|
  {
    if ws == [] then net
    else Writes(Note(Prepend(net, ws[0].name, ws[0].hash), Outside(ws[0])), ws[1..])
  }

  function NextTurn(net: Net): Turn {
    if net.agenda == [] then QUIET else net.agenda[0]
  }

  /** Let the environment take its next turn. */
  function Advance(net: Net): (r: Net)
    ensures net.trace <= r.trace
    ensures forall i | |net.trace| <= i < |r.trace| :: r.trace[i].Outside?
    ensures NextTurn(net).writes == [] ==> r.labels == net.labels && r.trace == net.trace
    ensures r.page == net.page
    ensures r.agenda == if net.agenda == [] then [] else net.agenda[1..]
  {
    Writes(net.(agenda := if net.agenda == [] then [] else net.agenda[1..]), NextTurn(net).writes)
  }

  /** The events of one kind, in order. */
  function Only(trace: seq<Event>, keep: Event -> bool): seq<Event>
    decreases |trace|
  {
    if trace == [] then []
    else
      var last := trace[|trace| - 1];
      Only(trace[..|trace| - 1], keep) + if keep(last) then [last] else []
  }

  lemma {:induction false} NoneAdded(trace: seq<Event>, more: seq<Event>, keep: Event -> bool)
    requires trace <= more
    requires forall i | |trace| <= i < |more| :: !keep(more[i])
    ensures Only(more, keep) == Only(trace, keep)
    decreases |more|
  {
    if |trace| < |more| {
      NoneAdded(trace, more[..|more| - 1], keep);
    } else {
      assert trace == more;
    }
  }

  lemma OneAdded(trace: seq<Event>, e: Event, keep: Event -> bool)
    requires keep(e)
    ensures Only(trace + [e], keep) == Only(trace, keep) + [e]
  {
    assert (trace + [e])[..|trace|] == trace;
  }

  /** No other writer, and a server that stores what it is sent; calls may still fail, and replies
      be unreadable. */
  predicate Undisturbed(net: Net) {
    forall t | t in net.agenda :: t.writes == [] && t.keeps.None?
  }

  /** Undisturbed, and every reply can be read. */
  predicate Clear(net: Net) {
    Undisturbed(net) && forall t | t in net.agenda :: !t.garbles
  }

  /** Clear, and no call fails. */
  predicate Calm(net: Net) {
    Clear(net) && forall t | t in net.agenda :: t.fault.None?
  }

  /** A class holding the one server all clients talk to. */
  class World {
    var net: Net

    constructor (net: Net)
      ensures this.net == net
    {
      this.net := net;
    }

    /** One call out of the promoter: the environment moves, and the call meets this turn. */
    method Call() returns (turn: Turn)
      modifies this
      ensures turn == NextTurn(old(net)) && net == Advance(old(net))
    {
      turn := NextTurn(net);
      net := Advance(net);
    }

    method Record(e: Event)
      modifies this
      ensures net == Note(old(net), e)
    {
      net := Note(net, e);
    }

    method RecordCheck(stored: map<string, Hash>, fetched: map<string, Hash>, ok: bool)
      modifies this
      ensures net == Note(Note(old(net), Compared(stored, fetched)), Checked(ok))
    {
      Record(Compared(stored, fetched));
      Record(Checked(ok));
    }

    /** The server stores a post, or what it makes of it, as the newest entry of the label. */
    method Store(turn: Turn, name: string, hash: ApiHash)
      modifies this
      ensures net == Note(Prepend(old(net), name, turn.keeps.GetOr(hash)), Posted(name, hash))
    {
      net := Note(Prepend(net, name, turn.keeps.GetOr(hash)), Posted(name, hash));
    }
  }
}
