/** What the label operations of the DLRN client guarantee over whole sessions. */
module DlrnClientTheorems {
  import opened Outcomes
  import opened DlrnHashes
  import opened PromotionApi
  import opened Labels
  import opened ClientOrder
  import opened DlrnClientSpec

  /** Hashes the API can hand back: those in the long, extended format. */
  predicate Fetchable(h: Hash) {
    h.extended.Text? && |h.extended.s| > 40
  }

  lemma ConvertDump(h: Hash)
    requires Fetchable(h)
    ensures var c := Convert(DumpToParams(h));
            && c.Returned? && c.value.Some?
            && Eq(c.value.value, h) && Eq(h, c.value.value)
            && DumpToParams(c.value.value) == DumpToParams(h)
  {
    RebuildFromApi(h);
  }

  lemma AdvanceUndisturbed(net: Net)
    requires Undisturbed(net)
    ensures Undisturbed(Advance(net)) && Advance(net).labels == net.labels
    ensures Clear(net) ==> Clear(Advance(net)) && !NextTurn(net).garbles
    ensures Calm(net) ==> Calm(Advance(net)) && NextTurn(net).fault.None?
    ensures NextTurn(net).keeps.None?
  {
  }

  /** An error that a failing call ends in. */
  predicate CallFailed(e: Error) {
    e != HashChangedError && e != DlrnHashError
  }

  lemma FetchUndisturbed(net: Net, name: string)
    requires Undisturbed(net)
    ensures || FetchLatest(net, name) == Latest(net, name)
            || (FetchLatest(net, name).Raised? && !Calm(net) && CallFailed(FetchLatest(net, name).error))
  {
    AdvanceUndisturbed(net);
  }

  /** What a label reads as depends on the labels alone. */
  lemma SameLabelsSameLatest(a: Net, b: Net, name: string)
    requires History(a, name) == History(b, name)
    ensures Latest(a, name) == Latest(b, name)
  {
  }

  lemma LatestIsFetchable(net: Net, name: string)
    requires Latest(net, name).Returned? && Latest(net, name).value.Some?
    ensures Fetchable(Latest(net, name).value.value)
  {
  }

  /** A post by the only writer changes nothing, or heads its label with the hash and stores it,
      unless its reply cannot be read. */
  ghost predicate PostsOrFails(net: Net, stored: map<string, Hash>, h: Hash, name: string, r: Step) {
    && Undisturbed(r.net) && (Clear(net) ==> Clear(r.net))
    && (r.error == Some(DlrnHashError) ==> !Clear(net))
    && (r.error.Some? && r.error != Some(DlrnHashError) ==>
        CallFailed(r.error.value) && !Calm(net) && r.net.labels == net.labels && r.stored == stored)
    && (r.error.None? ==>
         && r.net.labels == net.labels[name := [DumpToParams(h)] + History(net, name)]
         && r.stored == stored[name := h])
  }

  lemma PostEffect(net: Net, stored: map<string, Hash>, h: Hash, name: string)
    requires Undisturbed(net)
    ensures PostsOrFails(net, stored, h, name, Post(net, stored, h, name))
  {
    AdvanceUndisturbed(net);
  }

  lemma PromoteHashEffect(net: Net, stored: map<string, Hash>, h: Hash, name: string)
    requires Undisturbed(net)
    ensures PostsOrFails(net, stored, h, name, PromoteHash(net, stored, h, name))
  {
    hide Valid, DumpToParams, Post;
    AdvanceUndisturbed(net);
    PostEffect(net, stored, h, name);
    PostEffect(Advance(net), stored, h, name);
  }

  // ---- The named-hashes check and the promoter's own promotions ----

  /** A name reads as nothing, or as a hash equal to the stored one, if one is stored. */
  predicate Agrees(latest: Outcome<Option<Hash>>, name: string, stored: map<string, Hash>) {
    && latest.Returned?
    && (latest.value.Some? && name in stored ==> Eq(latest.value.value, stored[name]))
  }

  /** Every configured name is readable and agrees with the stored hash. */
  ghost predicate InSync(net: Net, names: seq<string>, stored: map<string, Hash>) {
    forall l | l in names :: Agrees(Latest(net, l), l, stored)
  }

  /** A fetch of the named hashes reads the server's labels. */
  ghost predicate ReadsLabels(net: Net, names: seq<string>, done: map<string, Hash>, r: Named) {
    && r.net.labels == net.labels && Undisturbed(r.net)
    && (Clear(net) ==> Clear(r.net)) && (Calm(net) ==> Calm(r.net))
    && (forall l | l in r.hashes ::
         (l in done && r.hashes[l] == done[l]) || (l in names && Latest(net, l) == Returned(Some(r.hashes[l]))))
    && (forall l | l in done && l !in names :: l in r.hashes && r.hashes[l] == done[l])
    && (r.error.None? ==> forall l | l in names :: ReadOf(Latest(net, l), l, r.hashes))
    && (r.error.Some? ==> (CallFailed(r.error.value) && !Calm(net))
                          || exists l | l in names :: Latest(net, l) == Raised(r.error.value))
  }

  predicate ReadOf(latest: Outcome<Option<Hash>>, name: string, hashes: map<string, Hash>) {
    latest.Returned? && (latest.value.Some? ==> name in hashes && hashes[name] == latest.value.value)
  }

  lemma {:induction false} FetchNamedReads(net: Net, names: seq<string>, done: map<string, Hash>)
    requires Undisturbed(net)
    ensures ReadsLabels(net, names, done, FetchNamed(net, names, done))
    decreases |names|
  {
    AdvanceUndisturbed(net);
    if names == [] {
    } else {
      var l, rest := names[0], names[1..];
      FetchUndisturbed(net, l);
      match FetchLatest(net, l)
      case Raised(e) =>
      case Returned(None) => FetchRest(net, names, done, done);
      case Returned(Some(h)) => FetchRest(net, names, done, done[l := h]);
    }
  }

  lemma {:induction false} FetchRest(net: Net, names: seq<string>, done: map<string, Hash>, done': map<string, Hash>)
    requires Undisturbed(net) && names != []
    requires FetchNamed(net, names, done) == FetchNamed(Advance(net), names[1..], done')
    requires Latest(net, names[0]).Returned?
    requires match Latest(net, names[0]).value case None => done' == done case Some(h) => done' == done[names[0] := h]
    ensures ReadsLabels(net, names, done, FetchNamed(net, names, done))
    decreases |names|, 0
  {
    hide Valid, Latest, FetchNamed, ReadsLabels;
    AdvanceUndisturbed(net);
    FetchNamedReads(Advance(net), names[1..], done');
    forall k ensures Latest(Advance(net), k) == Latest(net, k) {
      SameLabelsSameLatest(Advance(net), net, k);
    }
    ReadsCons(net, Advance(net), names, done, done', FetchNamed(net, names, done));
  }

  lemma ReadsCons(net: Net, net': Net, names: seq<string>, done: map<string, Hash>, done': map<string, Hash>, r: Named)
    requires names != [] && net'.labels == net.labels && (Clear(net) ==> Clear(net')) && (Calm(net) ==> Calm(net'))
    requires forall k :: Latest(net', k) == Latest(net, k)
    requires Latest(net, names[0]).Returned?
    requires match Latest(net, names[0]).value case None => done' == done case Some(h) => done' == done[names[0] := h]
    requires ReadsLabels(net', names[1..], done', r)
    ensures ReadsLabels(net, names, done, r)
  {
    var l, rest := names[0], names[1..];
    assert forall k | k in names :: k == l || k in rest;
    assert forall k | k in rest :: k in names;
    forall k | k in r.hashes
      ensures (k in done && r.hashes[k] == done[k]) || (k in names && Latest(net, k) == Returned(Some(r.hashes[k])))
    {
      if k == l && k !in rest {
        assert k in done' && r.hashes[k] == done'[k];
      }
    }
    if r.error.None? {
      forall k | k in names ensures ReadOf(Latest(net, k), k, r.hashes) {
        if k in rest {
          assert ReadOf(Latest(net', k), k, r.hashes);
        }
      }
    } else if !(CallFailed(r.error.value) && !Calm(net)) {
      var k :| k in rest && Latest(net', k) == Raised(r.error.value);
      assert k in names && Latest(net, k) == Raised(r.error.value);
    }
  }

  /** `fetch_current_named_hashes(store=True)` puts the client in sync, whatever it stored before. */
  lemma StoringSyncs(net: Net, names: seq<string>, before: map<string, Hash>)
    requires Undisturbed(net) && FetchNamed(net, names, map[]).error.None?
    ensures var r := FetchNamed(net, names, map[]);
            Undisturbed(r.net) && (Clear(net) ==> Clear(r.net)) && InSync(r.net, names, before + r.hashes)
  {
    var r := FetchNamed(net, names, map[]);
    FetchNamedReads(net, names, map[]);
    forall l | l in names ensures Agrees(Latest(r.net, l), l, before + r.hashes) {
      SameLabelsSameLatest(r.net, net, l);
      assert ReadOf(Latest(net, l), l, r.hashes);
    }
  }

  /** In sync, the check can only fail because a call fails: it never sees a changed hash. */
  lemma CheckInSync(net: Net, names: seq<string>, stored: map<string, Hash>)
    requires Undisturbed(net) && InSync(net, names, stored)
    ensures var r := Check(net, names, stored);
            && (r.error.Some? ==> CallFailed(r.error.value) && !Calm(net))
            && Undisturbed(r.net) && (Clear(net) ==> Clear(r.net)) && InSync(r.net, names, stored)
  {
    FetchNamedReads(net, names, map[]);
    var fetched := FetchNamed(net, names, map[]);
    forall l | l in names ensures Agrees(Latest(net, l), l, stored) && Latest(fetched.net, l) == Latest(net, l) {
      SameLabelsSameLatest(fetched.net, net, l);
    }
    forall l | l in stored && l in fetched.hashes ensures Eq(fetched.hashes[l], stored[l]) {
    }
    var r := Check(net, names, stored);
    forall l | l in names ensures Latest(r.net, l) == Latest(fetched.net, l) {
      SameLabelsSameLatest(r.net, fetched.net, l);
    }
  }

  /** One post keeps the client in sync: the stored object carries its timestamp again by the
      time anyone compares it. */
  lemma PromoteHashKeepsSync(net: Net, names: seq<string>, stored: map<string, Hash>, h: Hash, name: string)
    requires Undisturbed(net) && InSync(net, names, stored) && Fetchable(h)
    ensures var r := PromoteHash(net, stored, h, name);
            && Undisturbed(r.net) && (Clear(net) ==> Clear(r.net))
            && (r.error == Some(DlrnHashError) ==> !Clear(net))
            && (r.error != Some(DlrnHashError) ==> InSync(r.net, names, r.stored))
            && (r.error.Some? && r.error != Some(DlrnHashError) ==> CallFailed(r.error.value) && !Calm(net))
  {
    PromoteHashEffect(net, stored, h, name);
    ConvertDump(h);
    var r := PromoteHash(net, stored, h, name);
    forall l | l in names && r.error != Some(DlrnHashError) ensures Agrees(Latest(r.net, l), l, r.stored) {
      if r.error.Some? || l != name {
        assert Agrees(Latest(net, l), l, stored);
        SameLabelsSameLatest(r.net, net, l);
      } else {
        assert Head(r.net, l) == Some(DumpToParams(h));
      }
    }
  }

  lemma PromoteKeepsSync(net: Net, names: seq<string>, stored: map<string, Hash>, h: Hash, target: string,
                         createPrevious: bool)
    requires Undisturbed(net) && InSync(net, names, stored) && Fetchable(h)
    ensures var r := Promote(net, stored, h, target, createPrevious);
            && Undisturbed(r.net) && (Clear(net) ==> Clear(r.net))
            && (Clear(net) || r.error != Some(DlrnHashError) ==> InSync(r.net, names, r.stored))
  {
    AdvanceUndisturbed(net);
    var fetched := Advance(net);
    forall l ensures Latest(fetched, l) == Latest(net, l) {
      SameLabelsSameLatest(fetched, net, l);
    }
    assert InSync(fetched, names, stored);
    FetchUndisturbed(net, target);
    match FetchLatest(net, target)
    case Raised(e) =>
    case Returned(incumbent) =>
      if incumbent.Some? && Eq(incumbent.value, h) {
      } else if createPrevious && incumbent.Some? {
        LatestIsFetchable(net, target);
        PromoteHashKeepsSync(fetched, names, stored, incumbent.value, PreviousLabel(target));
        var saved := PromoteHash(fetched, stored, incumbent.value, PreviousLabel(target));
        if saved.error.None? {
          PromoteHashKeepsSync(saved.net, names, saved.stored, h, target);
        }
      } else {
        PromoteHashKeepsSync(fetched, names, stored, h, target);
      }
  }

  /** A promotion the promoter makes in a session. */
  datatype Action = Action(hash: Hash, target: string, createPrevious: bool)

  /** The state after any number of the promoter's own promotions, completed or failed. */
  function Session(net: Net, stored: map<string, Hash>, actions: seq<Action>): Step
    decreases |actions|
  {
    if actions == [] then Step(net, stored, None)
    else
      var before := Session(net, stored, actions[..|actions| - 1]);
      var a := actions[|actions| - 1];
      Promote(before.net, before.stored, a.hash, a.target, a.createPrevious)
  }

  lemma {:induction false} SessionKeepsSync(net: Net, names: seq<string>, stored: map<string, Hash>,
                                            actions: seq<Action>)
    requires Clear(net) && InSync(net, names, stored)
    requires forall a | a in actions :: Fetchable(a.hash)
    ensures var r := Session(net, stored, actions);
            Clear(r.net) && InSync(r.net, names, r.stored)
    decreases |actions|
  {
    if actions == [] {
    } else {
      var n := |actions| - 1;
      SessionKeepsSync(net, names, stored, actions[..n]);
      var before := Session(net, stored, actions[..n]);
      PromoteKeepsSync(before.net, names, before.stored, actions[n].hash, actions[n].target, actions[n].createPrevious);
    }
  }

  /** With no other writer and a server that stores what it is sent, the hash check never
      reports a change after any of the promoter's own promotions, for any targets and even
      when some of them failed half-way; and when no call fails it passes. */
  lemma OwnPromotionsNeverTripTheCheck(net: Net, names: seq<string>, before: map<string, Hash>, actions: seq<Action>)
    requires Clear(net) && FetchNamed(net, names, map[]).error.None?
    requires forall a | a in actions :: Fetchable(a.hash)
    ensures var start := FetchNamed(net, names, map[]);
            var r := Session(start.net, before + start.hashes, actions);
            var c := Check(r.net, names, r.stored);
            && c.error != Some(HashChangedError)
            && (c.error.Some? ==> CallFailed(c.error.value))
            && (Calm(r.net) ==> c.error.None?)
  {
    StoringSyncs(net, names, before);
    var start := FetchNamed(net, names, map[]);
    SessionKeepsSync(start.net, names, before + start.hashes, actions);
    var r := Session(start.net, before + start.hashes, actions);
    CheckInSync(r.net, names, r.stored);
  }

  /** Without the echoing server the property turns on one comparison. After a post that the
      server may have stored under its own timestamp, the next check passes exactly when what
      it kept equals what the promoter sent. */
  lemma CheckAfterRestampedPost(net: Net, names: seq<string>, stored: map<string, Hash>, h: Hash, name: string,
                                kept: Hash)
    requires name in names
    requires var r := PromoteHash(net, stored, h, name);
             && r.error.None? && Calm(r.net)
             && InSync(r.net, names, r.stored - {name})
             && Latest(r.net, name) == Returned(Some(kept))
    ensures var r := PromoteHash(net, stored, h, name);
            Check(r.net, names, r.stored).error == if Eq(kept, h) then None else Some(HashChangedError)
  {
    var r := PromoteHash(net, stored, h, name);
    StoredUnderName(net, stored, h, name);
    CheckComparesOne(r.net, names, r.stored, name, kept);
  }

  lemma StoredUnderName(net: Net, stored: map<string, Hash>, h: Hash, name: string)
    requires PromoteHash(net, stored, h, name).error.None?
    ensures PromoteHash(net, stored, h, name).stored == stored[name := h]
  {
    hide Valid;
  }

  /** When every other name agrees, the check's verdict is the comparison on this one. */
  lemma CheckComparesOne(net: Net, names: seq<string>, stored: map<string, Hash>, name: string, kept: Hash)
    requires name in names && name in stored && Calm(net)
    requires InSync(net, names, stored - {name}) && Latest(net, name) == Returned(Some(kept))
    ensures Check(net, names, stored).error == if Eq(kept, stored[name]) then None else Some(HashChangedError)
  {
    hide Valid, Latest;
    FetchNamedReads(net, names, map[]);
    var named := FetchNamed(net, names, map[]);
    forall l | l in names ensures Agrees(Latest(net, l), l, stored - {name}) {
    }
    assert ReadOf(Latest(net, name), name, named.hashes);
    forall l | l in stored && l in named.hashes && l != name ensures Eq(named.hashes[l], stored[l]) {
    }
  }

  // ---- What the check sees, in any interleaving ----

  /** The server after the environment took n turns. */
  function After(net: Net, n: nat): Net
    decreases n
  {
    if n == 0 then net else After(Advance(net), n - 1)
  }

  /** What the k-th fetch of the named hashes reads. */
  function Reading(net: Net, names: seq<string>, k: nat): Outcome<Option<Hash>>
    requires k < |names|
  {
    FetchLatest(After(net, k), names[k])
  }

  /** The k-th fetch is the first that fails: its error ends the fetching, no further turn is taken,
      and what was read before it is kept. */
  ghost predicate StopsAt(net: Net, names: seq<string>, r: Named, k: nat)
    requires r.error.Some?
  {
    && k < |names| && Reading(net, names, k) == Raised(r.error.value)
    && r.net == After(net, k + 1)
    && forall j | 0 <= j < k :: ReadOf(Reading(net, names, j), names[j], r.hashes)
  }

  /** Fetching all names gives the readings, or the first error among them. */
  ghost predicate ReadsEach(net: Net, names: seq<string>, done: map<string, Hash>, r: Named) {
    && (r.error.None? ==> r.net == After(net, |names|))
    && (r.error.None? ==> forall k | 0 <= k < |names| :: Reading(net, names, k).Returned?)
    && (r.error.Some? ==> exists k: nat :: StopsAt(net, names, r, k))
    && (r.error.None? ==> forall k | 0 <= k < |names| :: ReadOf(Reading(net, names, k), names[k], r.hashes))
    && (forall l | l in r.hashes ::
         (l in done && r.hashes[l] == done[l])
         || exists k :: 0 <= k < |names| && names[k] == l && Reading(net, names, k) == Returned(Some(r.hashes[l])))
    && (forall l | l in done && l !in names :: l in r.hashes && r.hashes[l] == done[l])
  }

  lemma {:induction false} FetchReadsEach(net: Net, names: seq<string>, done: map<string, Hash>)
    requires Distinct(names)
    ensures ReadsEach(net, names, done, FetchNamed(net, names, done))
    decreases |names|
  {
    hide Valid, FetchLatest, Advance;
    if names == [] {
    } else {
      assert Reading(net, names, 0) == FetchLatest(net, names[0]);
      match FetchLatest(net, names[0])
      case Raised(e) => assert StopsAt(net, names, FetchNamed(net, names, done), 0);
      case Returned(None) => FetchEachRest(net, names, done, done);
      case Returned(Some(h)) => FetchEachRest(net, names, done, done[names[0] := h]);
    }
  }

  lemma {:induction false} FetchEachRest(net: Net, names: seq<string>,
                                         done: map<string, Hash>, done': map<string, Hash>)
    requires names != [] && Distinct(names) && FetchLatest(net, names[0]).Returned?
    requires FetchNamed(net, names, done) == FetchNamed(Advance(net), names[1..], done')
    requires match FetchLatest(net, names[0]).value
             case None => done' == done
             case Some(h) => done' == done[names[0] := h]
    ensures ReadsEach(net, names, done, FetchNamed(net, names, done))
    decreases |names|, 0
  {
    hide Valid, FetchLatest, Advance, FetchNamed, ReadsEach;
    FetchReadsEach(Advance(net), names[1..], done');
    ReadsEachCons(net, names, done, done', FetchNamed(net, names, done));
  }

  lemma ReadsEachCons(net: Net, names: seq<string>, done: map<string, Hash>, done': map<string, Hash>, r: Named)
    requires names != [] && Distinct(names) && FetchLatest(net, names[0]).Returned?
    requires ReadsEach(Advance(net), names[1..], done', r)
    requires match FetchLatest(net, names[0]).value
             case None => done' == done
             case Some(h) => done' == done[names[0] := h]
    ensures ReadsEach(net, names, done, r)
  {
    hide Valid, FetchLatest, Advance, ReadOf;
    var rest := names[1..];
    assert Reading(net, names, 0) == FetchLatest(net, names[0]);
    forall k: nat | k < |rest|
      ensures Reading(Advance(net), rest, k) == Reading(net, names, k + 1) && rest[k] == names[k + 1]
    {
    }
    assert names[0] !in rest;
    FirstIsRead(FetchLatest(net, names[0]), names[0], done, done', r.hashes);
    if r.error.Some? {
      var k: nat :| StopsAt(Advance(net), rest, r, k);
      StopsLater(net, names, r, k);
    } else {
      forall k | 0 <= k < |names|
        ensures Reading(net, names, k).Returned? && ReadOf(Reading(net, names, k), names[k], r.hashes)
      {
        if k > 0 {
          assert Reading(Advance(net), rest, k - 1) == Reading(net, names, k);
        }
      }
    }
    forall l | l in r.hashes && !(l in done && r.hashes[l] == done[l])
      ensures exists k :: 0 <= k < |names| && names[k] == l && Reading(net, names, k) == Returned(Some(r.hashes[l]))
    {
      if l in done' && r.hashes[l] == done'[l] {
        assert names[0] == l && Reading(net, names, 0) == Returned(Some(r.hashes[l]));
      } else {
        var k :| 0 <= k < |rest| && rest[k] == l && Reading(Advance(net), rest, k) == Returned(Some(r.hashes[l]));
        assert names[k + 1] == l && Reading(net, names, k + 1) == Returned(Some(r.hashes[l]));
      }
    }
  }

  lemma StopsLater(net: Net, names: seq<string>, r: Named, k: nat)
    requires names != [] && r.error.Some? && StopsAt(Advance(net), names[1..], r, k)
    requires ReadOf(Reading(net, names, 0), names[0], r.hashes)
    ensures StopsAt(net, names, r, k + 1)
  {
    hide Valid, FetchLatest, Advance, ReadOf;
    forall j | 0 < j <= k + 1 ensures Reading(net, names, j) == Reading(Advance(net), names[1..], j - 1) {
    }
  }

  lemma FirstIsRead(latest: Outcome<Option<Hash>>, name: string, done: map<string, Hash>, done': map<string, Hash>,
                    hashes: map<string, Hash>)
    requires latest.Returned?
    requires match latest.value case None => done' == done case Some(h) => done' == done[name := h]
    requires name in done' ==> name in hashes && hashes[name] == done'[name]
    ensures ReadOf(latest, name, hashes)
  {
    hide Valid;
  }

  /** Reading never raises the error that a changed hash does. */
  lemma ReadingIsNoVerdict(net: Net, name: string)
    ensures FetchLatest(net, name).Raised? ==> FetchLatest(net, name).error != HashChangedError
  {
  }

  /** In every interleaving with outside writers, and for all failures, the check passes if and
      only if each label, at the moment it is fetched, reads as nothing or as its stored hash,
      where one is stored; and it reports a change if and only if all labels can be read and
      one of them reads as another hash than the stored one. */
  lemma CheckVerdictIff(net: Net, names: seq<string>, stored: map<string, Hash>)
    requires Distinct(names)
    ensures var c := Check(net, names, stored);
            && (c.error.None? <==> forall k | 0 <= k < |names| :: Agrees(Reading(net, names, k), names[k], stored))
            && (c.error == Some(HashChangedError) <==>
                 && (forall k | 0 <= k < |names| :: Reading(net, names, k).Returned?)
                 && exists k | 0 <= k < |names| :: !Agrees(Reading(net, names, k), names[k], stored))
  {
    hide Valid, FetchLatest, Advance, FetchNamed, Eq;
    FetchReadsEach(net, names, map[]);
    var named := FetchNamed(net, names, map[]);
    if named.error.Some? {
      var k: nat :| StopsAt(net, names, named, k);
      ReadingIsNoVerdict(After(net, k), names[k]);
      assert !Agrees(Reading(net, names, k), names[k], stored);
    } else if Changed(stored, named.hashes) {
      var l :| l in stored && l in named.hashes && !Eq(named.hashes[l], stored[l]);
      var k :| 0 <= k < |names| && names[k] == l && Reading(net, names, k) == Returned(Some(named.hashes[l]));
      assert !Agrees(Reading(net, names, k), names[k], stored);
    } else {
      forall k | 0 <= k < |names| ensures Agrees(Reading(net, names, k), names[k], stored) {
        assert ReadOf(Reading(net, names, k), names[k], named.hashes);
      }
    }
  }

  // ---- Label histories over repeated promotions ----

  function Incumbent(net: Net, target: string): Option<Hash> {
    match Latest(net, target) case Returned(o) => o case Raised(_) => None
  }

  function Saved(incumbent: Option<Hash>): seq<ApiHash> {
    match incumbent case None => [] case Some(i) => [DumpToParams(i)]
  }

  /** The labels after a completed promotion: the candidate heads its label, the incumbent
      the previous label. */
  ghost predicate Promoted(net: Net, r: Net, h: Hash, target: string, incumbent: Option<Hash>) {
    && History(r, target) == [DumpToParams(h)] + History(net, target)
    && History(r, PreviousLabel(target)) == Saved(incumbent) + History(net, PreviousLabel(target))
    && (forall l | l != target && l != PreviousLabel(target) :: History(r, l) == History(net, l))
  }

  lemma PromoteEffect(net: Net, stored: map<string, Hash>, h: Hash, target: string)
    requires Undisturbed(net) && Promote(net, stored, h, target, true).error.None?
    ensures var r := Promote(net, stored, h, target, true).net;
            && Undisturbed(r)
            && Promoted(net, r, h, target, Incumbent(net, target))
            && Latest(net, target).Returned?
            && (Incumbent(net, target).Some? ==> !Eq(Incumbent(net, target).value, h))
  {
    hide Valid, PromoteHash, Latest, DumpToParams;
    AdvanceUndisturbed(net);
    FetchUndisturbed(net, target);
    match FetchLatest(net, target).value
    case Some(i) => SaveThenPromote(Advance(net), stored, i, h, target);
    case None =>
      PreviousDiffers(target);
      PromoteHashEffect(Advance(net), stored, h, target);
  }

  lemma SaveThenPromote(net: Net, stored: map<string, Hash>, i: Hash, h: Hash, target: string)
    requires Undisturbed(net)
    ensures var saved := PromoteHash(net, stored, i, PreviousLabel(target));
            var r := PromoteHash(saved.net, saved.stored, h, target);
            && Undisturbed(saved.net) && Undisturbed(r.net)
            && (saved.error.None? && r.error.None? ==> Promoted(net, r.net, h, target, Some(i)))
  {
    PreviousDiffers(target);
    PromoteHashEffect(net, stored, i, PreviousLabel(target));
    var saved := PromoteHash(net, stored, i, PreviousLabel(target));
    PromoteHashEffect(saved.net, saved.stored, h, target);
  }

  /** Promoting each of a list of candidates to one label, stopping at the first error. */
  function PromoteEach(net: Net, stored: map<string, Hash>, cs: seq<Hash>, target: string): Step
    decreases |cs|
  {
    if cs == [] then Step(net, stored, None)
    else
      var before := PromoteEach(net, stored, cs[..|cs| - 1], target);
      if before.error.Some? then before
      else Promote(before.net, before.stored, cs[|cs| - 1], target, true)
  }

  /** The posts of a list of hashes, newest first. */
  function Posts(cs: seq<Hash>): (r: seq<ApiHash>)
    ensures |r| == |cs|
  {
    if cs == [] then [] else [DumpToParams(cs[|cs| - 1])] + Posts(cs[..|cs| - 1])
  }

  /** After n completed promotions the label's history is c_n .. c_1 on top of the old one, the
      previous label's is c_(n-1) .. c_1 and the first incumbent on top of the old one, and no
      other label changed. Histories only grow. */
  lemma {:induction false} RepeatedPromotions(net: Net, stored: map<string, Hash>, cs: seq<Hash>, target: string)
    requires Undisturbed(net)
    requires PromoteEach(net, stored, cs, target).error.None?
    requires forall k | 0 <= k < |cs| - 1 :: Fetchable(cs[k])
    ensures var r := PromoteEach(net, stored, cs, target).net;
            Undisturbed(r) && PostedOnTop(net, r, cs, target)
    decreases |cs|
  {
    hide Valid, Posts, Promote, Promoted, PostedOnTop, Undisturbed, DumpToParams;
    var n := |cs|;
    if n == 0 {
      NothingPosted(net, cs, target);
    } else {
      var init := cs[..n - 1];
      RepeatedPromotions(net, stored, init, target);
      var before := PromoteEach(net, stored, init, target);
      var r := Promote(before.net, before.stored, cs[n - 1], target, true);
      PromoteEffect(before.net, before.stored, cs[n - 1], target);
      FirstOrLastPromoted(net, before.net, cs, target);
      HistoriesGrow(net, before.net, r.net, cs, target);
    }
  }

  lemma NothingPosted(net: Net, cs: seq<Hash>, target: string)
    requires cs == []
    ensures PostedOnTop(net, net, cs, target)
  {
  }

  /** The incumbent that the last of a list finds: the first incumbent, or the one before it. */
  lemma FirstOrLastPromoted(net: Net, before: Net, cs: seq<Hash>, target: string)
    requires cs != [] && PostedOnTop(net, before, cs[..|cs| - 1], target)
    requires forall k | 0 <= k < |cs| - 1 :: Fetchable(cs[k])
    ensures if |cs| == 1 then Incumbent(before, target) == Incumbent(net, target)
            else Saved(Incumbent(before, target)) == [DumpToParams(cs[|cs| - 2])]
  {
    hide Valid, Posts, Latest, DumpToParams, Saved, Fetchable;
    var n := |cs|;
    var init := cs[..n - 1];
    if n == 1 {
      NoPosts(init);
      assert History(before, target) == History(net, target);
      SameLabelsSameLatest(before, net, target);
    } else {
      LatestPost(init);
      IncumbentIsLastPromoted(before, init[n - 2], target);
    }
  }

  /** Posts of a list, on top of the first incumbent and the old histories. */
  ghost predicate PostedOnTop(net: Net, r: Net, cs: seq<Hash>, target: string) {
    && History(r, target) == Posts(cs) + History(net, target)
    && History(r, PreviousLabel(target)) ==
         (if |cs| == 0 then [] else Posts(cs[..|cs| - 1]) + Saved(Incumbent(net, target)))
         + History(net, PreviousLabel(target))
    && forall l | l != target && l != PreviousLabel(target) :: History(r, l) == History(net, l)
  }

  lemma LatestPost(cs: seq<Hash>)
    requires cs != []
    ensures Posts(cs) == [DumpToParams(cs[|cs| - 1])] + Posts(cs[..|cs| - 1])
  {
  }

  lemma HistoriesGrow(net: Net, before: Net, r: Net, cs: seq<Hash>, target: string)
    requires cs != [] && PostedOnTop(net, before, cs[..|cs| - 1], target)
    requires Promoted(before, r, cs[|cs| - 1], target, Incumbent(before, target))
    requires if |cs| == 1 then Incumbent(before, target) == Incumbent(net, target)
             else Saved(Incumbent(before, target)) == [DumpToParams(cs[|cs| - 2])]
    ensures PostedOnTop(net, r, cs, target)
  {
    hide Valid, Latest, DumpToParams, Posts, Incumbent, Saved;
    var n := |cs|;
    var init := cs[..n - 1];
    var last, was := [DumpToParams(cs[n - 1])], History(net, target);
    LatestPost(cs);
    assert History(r, target) == last + (Posts(init) + was) == Posts(cs) + was;
    var previous := PreviousLabel(target);
    var kept, below := Saved(Incumbent(net, target)), History(net, previous);
    if n == 1 {
      NoPosts(init);
      assert History(r, previous) == kept + ([] + below) == ([] + kept) + below;
    } else {
      LatestPost(init);
      assert init[..n - 2] == cs[..n - 2];
      var second, rest := [DumpToParams(cs[n - 2])], Posts(init[..n - 2]);
      assert History(before, previous) == (rest + kept) + below;
      assert History(r, previous) == second + ((rest + kept) + below) == ((second + rest) + kept) + below;
    }
  }

  lemma NoPosts(cs: seq<Hash>)
    requires cs == []
    ensures Posts(cs) == []
  {
  }

  lemma IncumbentIsLastPromoted(net: Net, h: Hash, target: string)
    requires Fetchable(h) && Head(net, target) == Some(DumpToParams(h))
    ensures Saved(Incumbent(net, target)) == [DumpToParams(h)]
  {
    ConvertDump(h);
  }

  /** The two heads after n promotions: the last candidate, and the one before it. */
  lemma LatestAndPrevious(net: Net, stored: map<string, Hash>, cs: seq<Hash>, target: string)
    requires Undisturbed(net) && PromoteEach(net, stored, cs, target).error.None?
    requires |cs| >= 2 && forall k | 0 <= k < |cs| - 1 :: Fetchable(cs[k])
    ensures var r := PromoteEach(net, stored, cs, target).net;
            && Head(r, target) == Some(DumpToParams(cs[|cs| - 1]))
            && Head(r, PreviousLabel(target)) == Some(DumpToParams(cs[|cs| - 2]))
  {
    RepeatedPromotions(net, stored, cs, target);
  }

  /** In any interleaving: when the target reads as a hash equal to the one to promote, the promotion
      is refused, and posts and stores nothing. */
  lemma EqualIncumbentIsRefused(net: Net, stored: map<string, Hash>, h: Hash, target: string, createPrevious: bool)
    requires var latest := FetchLatest(net, target);
             latest.Returned? && latest.value.Some? && Eq(latest.value.value, h)
    ensures var r := Promote(net, stored, h, target, createPrevious);
            && r.error == Some(PromotionError) && r.net == Advance(net) && r.stored == stored
            && forall i | |net.trace| <= i < |r.net.trace| :: r.net.trace[i].Outside?
  {
    hide Valid, FetchLatest, Eq;
  }

  /** Promoting the hash that already heads the label posts nothing and stores nothing. */
  lemma RepromotingPostsNothing(net: Net, stored: map<string, Hash>, h: Hash, target: string)
    requires Undisturbed(net) && Fetchable(h) && Promote(net, stored, h, target, true).error.None?
    requires Calm(Promote(net, stored, h, target, true).net)
    ensures var first := Promote(net, stored, h, target, true);
            var again := Promote(first.net, first.stored, h, target, true);
            && again.error == Some(PromotionError)
            && again.net.labels == first.net.labels
            && again.net.trace == first.net.trace
            && again.stored == first.stored
  {
    var first := Promote(net, stored, h, target, true);
    PromoteEffect(net, stored, h, target);
    ConvertDump(h);
    AdvanceUndisturbed(first.net);
    FetchUndisturbed(first.net, target);
    assert Head(first.net, target) == Some(DumpToParams(h));
    EqualIncumbentIsRefused(first.net, first.stored, h, target, true);
  }

  // ---- Faults and retries ----

  /** The state after n attempts at one promotion. */
  function Attempts(net: Net, stored: map<string, Hash>, h: Hash, target: string, n: nat): Step {
    if n == 0 then Step(net, stored, None)
    else
      var before := Attempts(net, stored, h, target, n - 1);
      Promote(before.net, before.stored, h, target, true)
  }

  /** Each of the first n attempts failed, in whatever exception. */
  ghost predicate AllFailed(net: Net, stored: map<string, Hash>, h: Hash, target: string, n: nat) {
    forall k | 1 <= k <= n :: Attempts(net, stored, h, target, k).error.Some?
  }

  /** The previous label's newest entry is the old one, or the incumbent's. */
  predicate OldOrIncumbent(head: Option<ApiHash>, was: Option<ApiHash>, incumbent: Option<Hash>) {
    head == was || (incumbent.Some? && head == Some(DumpToParams(incumbent.value)))
  }

  /** Between two states at most the previous label changed, and that only to the incumbent. */
  ghost predicate OnlyPreviousMoved(net: Net, r: Net, target: string) {
    && (forall l | l != PreviousLabel(target) :: History(r, l) == History(net, l))
    && OldOrIncumbent(Head(r, PreviousLabel(target)), Head(net, PreviousLabel(target)), Incumbent(net, target))
  }

  /** A failed attempt changes at most the previous label, and that only to the incumbent. */
  lemma FailedAttemptEffect(net: Net, stored: map<string, Hash>, h: Hash, target: string)
    requires Clear(net) && Promote(net, stored, h, target, true).error.Some?
    ensures var r := Promote(net, stored, h, target, true).net;
            Clear(r) && OnlyPreviousMoved(net, r, target)
  {
    hide Valid, PromoteHash, Latest, DumpToParams;
    AdvanceUndisturbed(net);
    FetchUndisturbed(net, target);
    var fetched := Advance(net);
    match FetchLatest(net, target)
    case Raised(_) =>
    case Returned(Some(incumbent)) =>
      PromoteHashEffect(fetched, stored, incumbent, PreviousLabel(target));
      var saved := PromoteHash(fetched, stored, incumbent, PreviousLabel(target));
      if saved.error.None? {
        PromoteHashEffect(saved.net, saved.stored, h, target);
      }
    case Returned(None) =>
      PromoteHashEffect(fetched, stored, h, target);
  }

  lemma OnlyPreviousMovedTwice(net: Net, before: Net, r: Net, target: string)
    requires OnlyPreviousMoved(net, before, target) && OnlyPreviousMoved(before, r, target)
    ensures OnlyPreviousMoved(net, r, target)
  {
    hide Valid, Latest, PreviousLabel, DumpToParams;
    PreviousDiffers(target);
    SameLabelsSameLatest(before, net, target);
    forall l | l != PreviousLabel(target) ensures History(r, l) == History(net, l) {
      assert History(r, l) == History(before, l) == History(net, l);
    }
  }

  lemma {:induction false} FailedAttemptsEffect(net: Net, stored: map<string, Hash>, h: Hash, target: string, n: nat)
    requires Clear(net) && AllFailed(net, stored, h, target, n)
    ensures var r := Attempts(net, stored, h, target, n).net;
            Clear(r) && OnlyPreviousMoved(net, r, target)
  {
    hide Valid, Promote, Clear, OnlyPreviousMoved;
    if n == 0 {
      NothingMoved(net, target);
    } else {
      assert AllFailed(net, stored, h, target, n - 1);
      FailedAttemptsEffect(net, stored, h, target, n - 1);
      var before := Attempts(net, stored, h, target, n - 1);
      assert Attempts(net, stored, h, target, n).error.Some?;
      FailedAttemptEffect(before.net, before.stored, h, target);
      OnlyPreviousMovedTwice(net, before.net, Promote(before.net, before.stored, h, target, true).net, target);
    }
  }

  lemma NothingMoved(net: Net, target: string)
    ensures OnlyPreviousMoved(net, net, target)
  {
  }

  /** A promotion on a calm server fails only when the candidate already heads the label, or
      the label cannot be read. */
  lemma CalmPromotionCompletes(net: Net, stored: map<string, Hash>, h: Hash, target: string)
    requires Calm(net) && Latest(net, target).Returned?
    requires Incumbent(net, target).Some? ==> !Eq(Incumbent(net, target).value, h)
    ensures Promote(net, stored, h, target, true).error.None?
  {
    FetchUndisturbed(net, target);
    AdvanceUndisturbed(net);
    match Latest(net, target).value
    case None => CalmPostCompletes(Advance(net), stored, h, target);
    case Some(i) =>
      CalmPostCompletes(Advance(net), stored, i, PreviousLabel(target));
      var saved := PromoteHash(Advance(net), stored, i, PreviousLabel(target));
      CalmPostCompletes(saved.net, saved.stored, h, target);
  }

  lemma CalmPostCompletes(net: Net, stored: map<string, Hash>, h: Hash, name: string)
    requires Calm(net)
    ensures PromoteHash(net, stored, h, name).error.None? && Calm(PromoteHash(net, stored, h, name).net)
  {
    AdvanceUndisturbed(net);
    AdvanceUndisturbed(Advance(net));
  }

  /** However many attempts failed, in whatever exception and wherever it hit, a completed retry leaves
      every label's latest hash as one fault-free promotion would have, which also completes. */
  lemma RetryReachesFaultFreeLabels(net: Net, stored: map<string, Hash>, h: Hash, target: string, n: nat)
    requires Clear(net) && AllFailed(net, stored, h, target, n)
    requires Attempts(net, stored, h, target, n + 1).error.None?
    ensures var retried := Attempts(net, stored, h, target, n + 1).net;
            var clean := Promote(net.(agenda := []), stored, h, target, true);
            && clean.error.None?
            && forall l :: Head(retried, l) == Head(clean.net, l)
  {
    FailedAttemptsEffect(net, stored, h, target, n);
    var before := Attempts(net, stored, h, target, n);
    PreviousDiffers(target);
    SameLabelsSameLatest(before.net, net, target);
    PromoteEffect(before.net, before.stored, h, target);
    var quiet := net.(agenda := []);
    SameLabelsSameLatest(quiet, net, target);
    CalmPromotionCompletes(quiet, stored, h, target);
    PromoteEffect(quiet, stored, h, target);
    HeadsAgree(before.net, Attempts(net, stored, h, target, n + 1).net,
               net, Promote(quiet, stored, h, target, true).net, h, target, Incumbent(net, target));
  }

  lemma HeadsAgree(a: Net, a': Net, b: Net, b': Net, h: Hash, target: string, i: Option<Hash>)
    requires PreviousLabel(target) != target
    requires History(a', target) == [DumpToParams(h)] + History(a, target)
    requires History(b', target) == [DumpToParams(h)] + History(b, target)
    requires History(a', PreviousLabel(target)) == Saved(i) + History(a, PreviousLabel(target))
    requires History(b', PreviousLabel(target)) == Saved(i) + History(b, PreviousLabel(target))
    requires OldOrIncumbent(Head(a, PreviousLabel(target)), Head(b, PreviousLabel(target)), i)
    requires forall l | l != target && l != PreviousLabel(target) ::
               History(a', l) == History(a, l) == History(b, l) == History(b', l)
    ensures forall l :: Head(a', l) == Head(b', l)
  {
  }
}
