/** What the operations of the DLRN client come to in any interleaving, turn by turn of the
    environment: which turn makes which of them fail, in which exception, and what has been posted
    and stored by then. */
module DlrnClientLaws {
  import opened Outcomes
  import opened DlrnHashes
  import opened PromotionApi
  import opened Labels
  import opened ClientOrder
  import opened DlrnClientSpec
  import opened DlrnClientTheorems

  // ---- Turns of the environment ----

  /** What is left of an agenda after n turns. */
  function Later(agenda: seq<Turn>, n: nat): seq<Turn> {
    if n <= |agenda| then agenda[n..] else []
  }

  /** The i-th turn from now; the environment is quiet when its agenda is over. */
  function TurnAt(net: Net, i: nat): Turn {
    if i < |net.agenda| then net.agenda[i] else QUIET
  }

  lemma TurnIsNext(net: Net)
    ensures TurnAt(net, 0) == NextTurn(net)
    ensures Advance(net).agenda == Later(net.agenda, 1)
  {
  }

  lemma TurnLater(net: Net, later: Net, n: nat, i: nat)
    requires later.agenda == Later(net.agenda, n)
    ensures TurnAt(later, i) == TurnAt(net, n + i)
    ensures Later(later.agenda, i) == Later(net.agenda, n + i)
  {
  }

  lemma {:induction false} AfterTakes(net: Net, n: nat)
    ensures After(net, n).agenda == Later(net.agenda, n)
    ensures After(net, n).page == net.page
    decreases n
  {
    hide Valid, Advance;
    if n == 0 {
    } else {
      TurnIsNext(net);
      AfterTakes(Advance(net), n - 1);
      TurnLater(net, Advance(net), 1, n - 1);
    }
  }

  lemma {:induction false} AfterAfter(net: Net, a: nat, b: nat)
    ensures After(After(net, a), b) == After(net, a + b)
    decreases a
  {
    hide Valid, Advance;
    if a == 0 {
    } else {
      AfterAfter(Advance(net), a - 1, b);
    }
  }

  // ---- What does not depend on the record ----

  /** A server and its environment, apart from what was recorded. */
  function Bare(net: Net): Net {
    net.(trace := [])
  }

  lemma {:induction false} BareWrites(a: Net, b: Net, ws: seq<Write>)
    requires Bare(a) == Bare(b)
    ensures Bare(Writes(a, ws)) == Bare(Writes(b, ws))
    decreases |ws|
  {
    hide Valid;
    if ws == [] {
    } else {
      BareWrites(Note(Prepend(a, ws[0].name, ws[0].hash), Outside(ws[0])),
                 Note(Prepend(b, ws[0].name, ws[0].hash), Outside(ws[0])), ws[1..]);
    }
  }

  lemma BareAdvance(a: Net, b: Net)
    requires Bare(a) == Bare(b)
    ensures Bare(Advance(a)) == Bare(Advance(b)) && NextTurn(a) == NextTurn(b)
  {
    hide Valid, Writes;
    var turn := NextTurn(a);
    BareWrites(a.(agenda := if a.agenda == [] then [] else a.agenda[1..]),
               b.(agenda := if b.agenda == [] then [] else b.agenda[1..]), turn.writes);
  }

  lemma {:induction false} BareAfter(a: Net, b: Net, n: nat)
    requires Bare(a) == Bare(b)
    ensures Bare(After(a, n)) == Bare(After(b, n))
    decreases n
  {
    hide Valid, Advance;
    if n == 0 {
    } else {
      BareAdvance(a, b);
      BareAfter(Advance(a), Advance(b), n - 1);
    }
  }

  lemma BareFetch(a: Net, b: Net, name: string)
    requires Bare(a) == Bare(b)
    ensures FetchLatest(a, name) == FetchLatest(b, name)
  {
    hide Valid, Convert, Advance;
    BareAdvance(a, b);
  }

  lemma BareReading(a: Net, b: Net, names: seq<string>, k: nat)
    requires Bare(a) == Bare(b) && k < |names|
    ensures Reading(a, names, k) == Reading(b, names, k)
  {
    hide Valid, FetchLatest, Advance;
    BareAfter(a, b, k);
    BareFetch(After(a, k), After(b, k), names[k]);
  }

  /** Two outcomes that differ in the record alone. */
  predicate SameStep(a: Step, b: Step) {
    Bare(a.net) == Bare(b.net) && a.stored == b.stored && a.error == b.error
  }

  lemma BarePost(a: Net, b: Net, stored: map<string, Hash>, h: Hash, name: string)
    requires Bare(a) == Bare(b)
    ensures SameStep(PromoteHash(a, stored, h, name), PromoteHash(b, stored, h, name))
  {
    hide Valid, DumpToParams, Advance, Post;
    BareAdvance(a, b);
    BareOnePost(a, b, stored, h, name);
    BareOnePost(Advance(a), Advance(b), stored, h, name);
  }

  lemma BareOnePost(a: Net, b: Net, stored: map<string, Hash>, h: Hash, name: string)
    requires Bare(a) == Bare(b)
    ensures SameStep(Post(a, stored, h, name), Post(b, stored, h, name))
  {
    hide Valid, DumpToParams, Advance;
    BareAdvance(a, b);
  }

  lemma BarePromote(a: Net, b: Net, stored: map<string, Hash>, h: Hash, target: string, createPrevious: bool)
    requires Bare(a) == Bare(b)
    ensures SameStep(Promote(a, stored, h, target, createPrevious), Promote(b, stored, h, target, createPrevious))
  {
    hide Valid, FetchLatest, PromoteHash, Advance;
    BareFetch(a, b, target);
    BareAdvance(a, b);
    match FetchLatest(a, target)
    case Raised(_) =>
    case Returned(None) => BarePost(Advance(a), Advance(b), stored, h, target);
    case Returned(Some(i)) =>
      BarePost(Advance(a), Advance(b), stored, h, target);
      BarePost(Advance(a), Advance(b), stored, i, PreviousLabel(target));
      var x := PromoteHash(Advance(a), stored, i, PreviousLabel(target));
      var y := PromoteHash(Advance(b), stored, i, PreviousLabel(target));
      BarePost(x.net, y.net, x.stored, h, target);
  }

  // ---- What a label reads as ----

  /** The exceptions that only the promoter's own code raises. */
  const OWN := {PromotionError, HashChangedError, DlrnHashError}

  /** The exception that a failing call ends in: the environment's, but none of the promoter's own;
      collecting an aggregate's components can end in a PromotionError. */
  function Escaping(fault: Error, collecting: bool): Error {
    if fault in OWN && !(collecting && fault == PromotionError) then OtherError else fault
  }

  lemma FaultEscapes(t: Turn)
    ensures ApiFault(t) == if t.fault.None? then None else Some(Escaping(t.fault.value, false))
    ensures AggregateFault(t) == if t.fault.None? then None else Some(Escaping(t.fault.value, true))
  {
  }

  /** A record that does not describe a hash. */
  predicate Malformed(r: ApiHash) {
    || r.commit.Nil? || r.distro.Nil? || !CheckHash(r.commit) || !CheckHash(r.distro) || !CheckHash(r.aggregate)
    || CheckExtendedHash(r.extended).Some?
  }

  /** What an entry of a label reads as. */
  predicate ReadsAs(r: ApiHash, o: Outcome<Option<Hash>>) {
    if !r.extended.Text? then o == Raised(TypeError)
    else if |r.extended.s| <= 40 then o == Returned(None)
    else if Malformed(r) then o == Raised(DlrnHashError)
    else
      && o.Returned? && o.value.Some?
      && var h := o.value.value;
         && (h.commit, h.distro, h.extended, h.aggregate) == (r.commit, r.distro, r.extended, r.aggregate)
         && (h.timestamp, h.component) == (r.timestamp, r.component)
         && (h.kind.Aggregate? <==> r.aggregate != Nil)
  }

  lemma ConvertReads(r: ApiHash)
    ensures ReadsAs(r, Convert(r))
  {
    assert CheckHash(Nil);
    hide CheckHash, CheckExtendedHash;
    if r.extended.Text? && |r.extended.s| > 40 {
      ExtendedError(r.extended);
      var source := ApiSource(r);
      assert "commit_hash" in source.entries;
      var h := HashValue(CommitDistro, r.commit, r.distro, r.extended, r.aggregate, r.timestamp, r.component);
      var first := Build(CommitDistro, FromSource(source));
      var second := Build(Aggregate, FromSource(source));
      assert first == match SanityCheck(h) case Some(e) => Raised(e) case None => Returned(h);
      var a := h.(kind := Aggregate);
      assert second == match SanityCheck(a) case Some(e) => Raised(e) case None => Returned(a);
    }
  }

  lemma ExtendedError(extended: Attr)
    requires extended.Text? && |extended.s| > 40
    ensures !IsUnset(extended)
    ensures CheckExtendedHash(extended).Some? ==> CheckExtendedHash(extended) == Some(DlrnHashError)
  {
  }

  /** A fetch of a label's newest entry: when the turn fails, its exception; otherwise, after the
      others' writes of that turn, nothing for a label without entries, and else what the newest
      entry reads as. */
  lemma FetchIs(net: Net, name: string)
    ensures var turn, history := TurnAt(net, 0), History(Advance(net), name);
            if turn.fault.Some? then FetchLatest(net, name) == Raised(Escaping(turn.fault.value, false))
            else if history == [] then FetchLatest(net, name) == Returned(None)
            else ReadsAs(history[0], FetchLatest(net, name))
  {
    hide Valid, Convert, Advance, ReadsAs, ApiFault;
    TurnIsNext(net);
    FaultEscapes(NextTurn(net));
    var history := History(Advance(net), name);
    if history != [] {
      ConvertReads(history[0]);
    }
  }

  // ---- What the check ends in ----

  /** Every watched label reads as nothing or as its stored hash, where one is stored. */
  ghost predicate CheckPasses(net: Net, names: seq<string>, stored: map<string, Hash>) {
    forall k | 0 <= k < |names| :: Agrees(Reading(net, names, k), names[k], stored)
  }

  /** The fetches before the k-th succeed. */
  ghost predicate ReadBefore(net: Net, names: seq<string>, k: nat)
    requires k <= |names|
  {
    forall j | 0 <= j < k :: Reading(net, names, j).Returned?
  }

  /** The check takes one turn for each label, up to the first that cannot be read, whose exception
      it ends in; when all can be read, it passes or reports a change. */
  lemma CheckOutcome(net: Net, names: seq<string>, stored: map<string, Hash>)
    requires Distinct(names)
    ensures var r := Check(net, names, stored);
            && (r.error.None? <==> CheckPasses(net, names, stored))
            && (forall k: nat | k < |names| && ReadBefore(net, names, k) && Reading(net, names, k).Raised? ::
                 r.error == Some(Reading(net, names, k).error) && Bare(r.net) == Bare(After(net, k + 1)))
            && (ReadBefore(net, names, |names|) ==>
                 (r.error.Some? ==> r.error == Some(HashChangedError)) && Bare(r.net) == Bare(After(net, |names|)))
  {
    hide Valid, FetchLatest, Reading, Advance, FetchNamed, Eq, Agrees, Changed;
    CheckVerdictIff(net, names, stored);
    FetchReadsEach(net, names, map[]);
    var named := FetchNamed(net, names, map[]);
    if named.error.Some? {
      var k: nat :| StopsAt(net, names, named, k);
      assert Reading(net, names, k).Raised?;
      forall j | 0 <= j < k ensures Reading(net, names, j).Returned? {
        assert ReadOf(Reading(net, names, j), names[j], named.hashes);
      }
    }
  }

  // ---- What the DLRN client posts ----

  predicate IsPost(e: Event) {
    e.Posted?
  }

  /** The posts a promotion is out to make: the incumbent under the previous label, if there is
      one and it is to be kept, and then the candidate under the target. */
  function Planned(net: Net, h: Hash, target: string, createPrevious: bool): seq<Event> {
    match FetchLatest(net, target)
    case Raised(_) => []
    case Returned(None) => [Posted(target, DumpToParams(h))]
    case Returned(Some(i)) =>
      if Eq(i, h) then []
      else (if createPrevious then [Posted(PreviousLabel(target), DumpToParams(i))] else [])
           + [Posted(target, DumpToParams(h))]
  }

  /** One promoted hash is posted once, or not at all if it failed before the post. */
  lemma OnePost(net: Net, stored: map<string, Hash>, h: Hash, name: string) returns (k: nat)
    ensures var r := PromoteHash(net, stored, h, name);
            && k <= 1 && (r.error.None? ==> k == 1)
            && Only(r.net.trace, IsPost) == Only(net.trace, IsPost) + [Posted(name, DumpToParams(h))][..k]
  {
    hide Valid, DumpToParams, Only;
    NoneAdded(net.trace, Advance(net).trace, IsPost);
    NoneAdded(net.trace, Advance(Advance(net)).trace, IsPost);
    var e := Posted(name, DumpToParams(h));
    OneAdded(Advance(net).trace, e, IsPost);
    OneAdded(Advance(Advance(net)).trace, e, IsPost);
    assert [e][..1] == [e] && [e][..0] == [];
    k := if h.kind.Aggregate? && AggregateFault(NextTurn(net)).Some? then 0
         else if ApiFault(NextTurn(if h.kind.Aggregate? then Advance(net) else net)).Some? then 0
         else 1;
  }

  /** In any interleaving, a promotion posts a prefix of its plan, in order, and nothing else; a
      normal return means that it posted all of it, ending with the candidate. */
  lemma PostsArePlanned(net: Net, stored: map<string, Hash>, h: Hash, target: string, createPrevious: bool)
    returns (k: nat)
    ensures var r := Promote(net, stored, h, target, createPrevious);
            var plan := Planned(net, h, target, createPrevious);
            && k <= |plan|
            && Only(r.net.trace, IsPost) == Only(net.trace, IsPost) + plan[..k]
            && (r.error.None? ==> k == |plan| > 0)
            && (plan != [] ==> plan[|plan| - 1] == Posted(target, DumpToParams(h)))
  {
    hide Valid, DumpToParams, Only, PromoteHash, FetchLatest, Advance;
    k := 0;
    var asked := Advance(net);
    NoneAdded(net.trace, asked.trace, IsPost);
    match FetchLatest(net, target)
    case Raised(e) =>
    case Returned(None) => k := OnePost(asked, stored, h, target);
    case Returned(Some(i)) =>
      if !Eq(i, h) {
        if createPrevious {
          k := OnePost(asked, stored, i, PreviousLabel(target));
          var saved := PromoteHash(asked, stored, i, PreviousLabel(target));
          if saved.error.None? {
            var j := OnePost(saved.net, saved.stored, h, target);
            k := 1 + j;
          }
        } else {
          k := OnePost(asked, stored, h, target);
        }
      }
  }

  // ---- What a post and a promotion end in ----

  /** The turns a post takes: an aggregate's components are collected in one of their own. */
  function Turns(h: Hash): nat {
    if h.kind.Aggregate? then 2 else 1
  }

  /** No turn of a post that starts at the i-th turn fails, so that the server gets it. */
  ghost predicate Reached(net: Net, h: Hash, i: nat) {
    forall j | i <= j < i + Turns(h) :: TurnAt(net, j).fault.None?
  }

  /** It is made, and its reply can be read. */
  ghost predicate Works(net: Net, h: Hash, i: nat) {
    Reached(net, h, i) && !TurnAt(net, i + Turns(h) - 1).garbles
  }

  /** The turns it really takes: none after the first that fails. */
  function Taken(net: Net, h: Hash, i: nat): nat {
    if TurnAt(net, i).fault.Some? then 1 else Turns(h)
  }

  /** The exception it ends in: that of the first turn that fails, or DlrnHashError for a reply that
      cannot be read. */
  function PostError(net: Net, h: Hash, i: nat): Option<Error> {
    var last := i + Taken(net, h, i) - 1;
    if TurnAt(net, last).fault.Some? then
      Some(Escaping(TurnAt(net, last).fault.value, last < i + Turns(h) - 1))
    else if TurnAt(net, last).garbles then Some(DlrnHashError)
    else None
  }

  /** A post is recorded exactly when none of its turns fails, stored when its reply can be read as
      well, and ends in the exception of the first turn that fails. */
  lemma PostOutcome(net: Net, stored: map<string, Hash>, h: Hash, name: string)
    ensures var r := PromoteHash(net, stored, h, name);
            && r.error == PostError(net, h, 0) && (r.error.None? <==> Works(net, h, 0))
            && r.stored == (if Works(net, h, 0) then stored[name := h] else stored)
            && Only(r.net.trace, IsPost) ==
               Only(net.trace, IsPost) + (if Reached(net, h, 0) then [Posted(name, DumpToParams(h))] else [])
            && r.net.agenda == Later(net.agenda, Taken(net, h, 0))
  {
    hide Valid, DumpToParams, Only, Post, ApiFault, AggregateFault, Advance, Later;
    var asked := Advance(net);
    TurnIsNext(net);
    FaultEscapes(NextTurn(net));
    if h.kind.Aggregate? {
      TurnLater(net, asked, 1, 0);
      TurnLater(net, asked, 1, 1);
      NoneAdded(net.trace, asked.trace, IsPost);
      OneTurnPost(asked, stored, h, name);
    } else {
      OneTurnPost(net, stored, h, name);
    }
  }

  lemma OneTurnPost(net: Net, stored: map<string, Hash>, h: Hash, name: string)
    ensures var turn, r := TurnAt(net, 0), Post(net, stored, h, name);
            && r.error == (if turn.fault.Some? then Some(Escaping(turn.fault.value, false))
                           else if turn.garbles then Some(DlrnHashError) else None)
            && r.stored == (if r.error.None? then stored[name := h] else stored)
            && Only(r.net.trace, IsPost) ==
               Only(net.trace, IsPost) + (if turn.fault.None? then [Posted(name, DumpToParams(h))] else [])
            && r.net.agenda == Later(net.agenda, 1)
  {
    hide Valid, DumpToParams, Only, ApiFault, Advance, Later;
    TurnIsNext(net);
    FaultEscapes(NextTurn(net));
    NoneAdded(net.trace, Advance(net).trace, IsPost);
    OneAdded(Advance(net).trace, Posted(name, DumpToParams(h)), IsPost);
  }

  /** A post that starts n turns later. */
  lemma PostLater(net: Net, later: Net, n: nat, h: Hash)
    requires later.agenda == Later(net.agenda, n)
    ensures Reached(later, h, 0) == Reached(net, h, n) && Works(later, h, 0) == Works(net, h, n)
    ensures Taken(later, h, 0) == Taken(net, h, n) && PostError(later, h, 0) == PostError(net, h, n)
  {
    hide Valid, Later;
    TurnLater(net, later, n, 0);
    TurnLater(net, later, n, 1);
    assert forall j :: TurnAt(later, j) == TurnAt(later, 0) || j != 0;
    if h.kind.Aggregate? {
      ReachedTwo(net, h, n);
      ReachedTwo(later, h, 0);
    } else {
      ReachedOne(net, h, n);
      ReachedOne(later, h, 0);
    }
  }

  lemma ReachedTwo(net: Net, h: Hash, i: nat)
    requires h.kind.Aggregate?
    ensures Reached(net, h, i) <==> TurnAt(net, i).fault.None? && TurnAt(net, i + 1).fault.None?
  {
  }

  lemma ReachedOne(net: Net, h: Hash, i: nat)
    requires h.kind.CommitDistro?
    ensures Reached(net, h, i) <==> TurnAt(net, i).fault.None?
  {
  }

  /** What a promotion leaves: its error, what is stored, the posts recorded, and the turns taken. */
  ghost predicate LeavesWith(net: Net, r: Step, stored: map<string, Hash>, error: Option<Error>, posts: seq<Event>,
                             turns: nat)
  {
    && r.error == error && r.stored == stored
    && Only(r.net.trace, IsPost) == Only(net.trace, IsPost) + posts
    && r.net.agenda == Later(net.agenda, turns)
  }

  /** What is recorded of a post that starts at the i-th turn. */
  ghost function Recorded(net: Net, h: Hash, i: nat, name: string): seq<Event> {
    if Reached(net, h, i) then [Posted(name, DumpToParams(h))] else []
  }

  /** What is stored after a post that starts at the i-th turn. */
  ghost function Kept(net: Net, h: Hash, i: nat, stored: map<string, Hash>, name: string): map<string, Hash> {
    if Works(net, h, i) then stored[name := h] else stored
  }

  /** After the fetch, one post of the hash. */
  ghost predicate PostsOnce(net: Net, r: Step, stored: map<string, Hash>, h: Hash, target: string) {
    LeavesWith(net, r, Kept(net, h, 1, stored, target), PostError(net, h, 1), Recorded(net, h, 1, target),
               1 + Taken(net, h, 1))
  }

  /** After the fetch, a post of the incumbent, and if that works one of the hash. */
  ghost predicate SavesThenPosts(net: Net, r: Step, stored: map<string, Hash>, incumbent: Hash, h: Hash,
                                 target: string)
  {
    var previous, next := PreviousLabel(target), 1 + Turns(incumbent);
    var saved := Kept(net, incumbent, 1, stored, previous);
    if Works(net, incumbent, 1) then
      LeavesWith(net, r, Kept(net, h, next, saved, target), PostError(net, h, next),
                 Recorded(net, incumbent, 1, previous) + Recorded(net, h, next, target), next + Taken(net, h, next))
    else
      LeavesWith(net, r, saved, PostError(net, incumbent, 1), Recorded(net, incumbent, 1, previous),
                 1 + Taken(net, incumbent, 1))
  }

  /** A promotion in any interleaving. It fetches the target, and ends there when that fails or finds
      an equal hash. Otherwise it posts the incumbent under the previous label, when there is one and
      it is to be kept, and then the hash; the first post that does not work ends it, and nothing is
      posted, stored or called after that. */
  lemma PromoteOutcome(net: Net, stored: map<string, Hash>, h: Hash, target: string, createPrevious: bool)
    ensures var latest, r := FetchLatest(net, target), Promote(net, stored, h, target, createPrevious);
            if latest.Raised? then LeavesWith(net, r, stored, Some(latest.error), [], 1)
            else if latest.value.Some? && Eq(latest.value.value, h) then
              LeavesWith(net, r, stored, Some(PromotionError), [], 1)
            else if latest.value.None? || !createPrevious then PostsOnce(net, r, stored, h, target)
            else SavesThenPosts(net, r, stored, latest.value.value, h, target)
  {
    hide Valid, DumpToParams, Only, PromoteHash, FetchLatest, Advance, Works, Reached, PostError, Taken, Later, Eq;
    var asked := Advance(net);
    TurnIsNext(net);
    NoneAdded(net.trace, asked.trace, IsPost);
    match FetchLatest(net, target)
    case Raised(e) =>
    case Returned(None) =>
      OnePostLater(net, asked, 1, stored, h, target);
    case Returned(Some(i)) =>
      if !Eq(i, h) {
        if createPrevious {
          var previous := PreviousLabel(target);
          OnePostLater(net, asked, 1, stored, i, previous);
          var saved := PromoteHash(asked, stored, i, previous);
          if saved.error.None? {
            WorksTakesAll(net, i, 1);
            OnePostLater(net, saved.net, 1 + Turns(i), saved.stored, h, target);
          }
        } else {
          OnePostLater(net, asked, 1, stored, h, target);
        }
      }
  }

  lemma WorksTakesAll(net: Net, h: Hash, i: nat)
    requires Works(net, h, i)
    ensures Taken(net, h, i) == Turns(h)
  {
  }

  lemma OnePostLater(net: Net, later: Net, n: nat, stored: map<string, Hash>, h: Hash, name: string)
    requires later.agenda == Later(net.agenda, n)
    ensures var r := PromoteHash(later, stored, h, name);
            && LeavesWith(later, r, Kept(net, h, n, stored, name), PostError(net, h, n), Recorded(net, h, n, name),
                          Taken(net, h, n))
            && r.net.agenda == Later(net.agenda, n + Taken(net, h, n))
            && (r.error.None? <==> Works(net, h, n))
  {
    hide Valid, DumpToParams, Only, PromoteHash, Works, Reached, PostError, Taken, Later;
    PostOutcome(later, stored, h, name);
    PostLater(net, later, n, h);
    TurnLater(net, later, n, Taken(net, h, n));
  }
}
