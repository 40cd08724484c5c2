/** qcow_client.py: moving the label links of an image directory, with a fault possible at every
    file operation. */
module QcowClients {
  import opened Outcomes
  import opened Labels

  datatype Entry = Directory | File | Link(dest: string)

  type Listing = map<string, Entry>

  /** What happens to each operation of one `promote`; each is made at most once. `inspect` is the
      look at the images inside the hash's directory. */
  datatype Faults = Faults(
    connect: Fault, listDir: Fault, enterDir: Fault, inspect: Fault, changeDir: Fault, stat: Fault,
    readTarget: Fault, removeTarget: Fault, readPrevious: Fault,
    removePrevious: Fault, linkPrevious: Fault, linkTarget: Fault)

  const NO_FAULTS := Faults(Works, Works, Works, Works, Works, Works, Works, Works, Works, Works, Works, Works)

  /** The exception that an operation which did not work raises. */
  function ErrorOf(f: Fault): Error {
    if f.Breaks? then OtherError else EnvironmentError
  }

  /** `os.path.join(dir, name)` for a relative name. */
  function Join(dir: string, name: string): string {
    if dir == "" || dir[|dir| - 1] == '/' then dir + name else dir + "/" + name
  }

  /** A directory's name is joined by exactly one slash, whether it ends in one or not. */
  lemma JoinIs(dir: string, name: string)
    ensures Join("", name) == name
    ensures dir != "" && dir[|dir| - 1] != '/' ==> Join(dir, name) == dir + "/" + name == Join(dir + "/", name)
  {
  }

  /** `readlink`, and whether the code takes the answer for a link at all. */
  function ReadLink(entries: Listing, name: string, fault: Fault): Option<string> {
    if fault.Works? && name in entries && entries[name].Link? && entries[name].dest != "" then Some(entries[name].dest)
    else None
  }

  /** How `remove` turns out. */
  function Removing(entries: Listing, name: string, fault: Fault): Fault {
    if fault.Works? && (name !in entries || entries[name].Directory?) then Fails else fault
  }

  /** How `symlink` turns out. */
  function Linking(entries: Listing, name: string, fault: Fault): Fault {
    if fault.Works? && name in entries then Fails else fault
  }

  /** The entries after a promotion, and the exception that ended it, if any. */
  datatype Result = Result(entries: Listing, error: Option<Error>)

  /** What ends the promotion before the links are looked at. A failure to inspect the images is
      swallowed. */
  function Preparation(entries: Listing, f: Faults, hash: string, validation: bool): Option<Error> {
    if !f.connect.Works? then Some(ErrorOf(f.connect))
    else if validation && !f.listDir.Works? then Some(ErrorOf(f.listDir))
    else if validation && !f.enterDir.Works? then Some(ErrorOf(f.enterDir))
    else if validation && f.inspect.Breaks? then Some(OtherError)
    else if !f.changeDir.Works? then Some(ErrorOf(f.changeDir))
    else if f.stat.Breaks? then Some(OtherError)
    else if f.stat.Fails? || hash !in entries then Some(PromotionError)
    else None
  }

  /** What moving the links does to the directory, by cases on what was read and what failed. */
  function Moving(entries: Listing, f: Faults, dest: string, target: string, createPrevious: bool): Result {
    var previous := PreviousLabel(target);
    var current := ReadLink(entries, target, f.readTarget);
    var cleared := if current.Some? then entries - {target} else entries;
    var moves := current.Some? && createPrevious && ReadLink(entries, previous, f.readPrevious).Some?;
    if f.readTarget.Breaks? then Result(entries, Some(OtherError))
    else if current.Some? && !f.removeTarget.Works? then Result(entries, Some(ErrorOf(f.removeTarget)))
    else if f.readPrevious.Breaks? then Result(cleared, Some(OtherError))
    else if moves && !f.removePrevious.Works? then Result(cleared, Some(ErrorOf(f.removePrevious)))
    else if moves && !f.linkPrevious.Works? then Result(cleared - {previous}, Some(ErrorOf(f.linkPrevious)))
    else
      var moved := if moves then cleared[previous := Link(current.value)] else cleared;
      match Linking(moved, target, f.linkTarget)
      case Works => Result(moved[target := Link(dest)], None)
      case Fails => Result(moved, None)
      case Breaks => Result(moved, Some(OtherError))
  }

  /** What one promotion does to the directory. */
  function Promotion(entries: Listing, f: Faults, imagesDir: string, hash: string, target: string,
                     createPrevious: bool, validation: bool): Result
  {
    match Preparation(entries, f, hash, validation)
    case Some(e) => Result(entries, Some(e))
    case None => Moving(entries, f, Join(imagesDir, hash), target, createPrevious)
  }

  /** What moving the links notes for a rollback. The old target goes under the literal word
      "target_label", not under the label. */
  function Noted(links: map<string, string>, entries: Listing, f: Faults, target: string,
                 createPrevious: bool): map<string, string>
  {
    var previous := PreviousLabel(target);
    var current := ReadLink(entries, target, f.readTarget);
    var previousHash := ReadLink(entries, previous, f.readPrevious);
    if current.None? then links
    else if !f.removeTarget.Works? || !createPrevious || previousHash.None? then
      links["target_label" := current.value]
    else links["target_label" := current.value][previous := previousHash.value]
  }

  lemma ReadableIsRemovable(entries: Listing, name: string, fault: Fault)
    ensures ReadLink(entries, name, fault).Some? ==> forall f :: Removing(entries, name, f) == f
  {
  }

  lemma UnaffectedRead(entries: Listing, removed: string, name: string, fault: Fault)
    requires removed != name
    ensures ReadLink(entries - {removed}, name, fault) == ReadLink(entries, name, fault)
  {
  }

  class QcowClient {
    const imagesDir: string
    var entries: Listing
    var rollbackLinks: map<string, string>

    constructor (imagesDir: string, entries: Listing)
      ensures this.imagesDir == imagesDir && this.entries == entries && rollbackLinks == map[]
    {
      this.imagesDir := imagesDir;
      this.entries := entries;
      rollbackLinks := map[];
    }

    method Remove(name: string, fault: Fault) returns (r: Fault)
      modifies this`entries
      ensures r == Removing(old(entries), name, fault)
      ensures entries == if r.Works? then old(entries) - {name} else old(entries)
    {
      r := Removing(entries, name, fault);
      if r.Works? {
        entries := entries - {name};
      }
    }

    method Symlink(dest: string, name: string, fault: Fault) returns (r: Fault)
      modifies this`entries
      ensures r == Linking(old(entries), name, fault)
      ensures entries == if r.Works? then old(entries)[name := Link(dest)] else old(entries)
    {
      r := Linking(entries, name, fault);
      if r.Works? {
        entries := entries[name := Link(dest)];
      }
    }

    /** Saving the old target under the previous label, which can be removed. */
    method MovePrevious(previousLabel: string, currentHash: string, previousHash: string, f: Faults)
      returns (error: Option<Error>)
      requires Removing(entries, previousLabel, f.removePrevious) == f.removePrevious
      modifies this
      ensures rollbackLinks == old(rollbackLinks)[previousLabel := previousHash]
      ensures Result(entries, error) ==
              if !f.removePrevious.Works? then Result(old(entries), Some(ErrorOf(f.removePrevious)))
              else if !f.linkPrevious.Works? then Result(old(entries) - {previousLabel}, Some(ErrorOf(f.linkPrevious)))
              else Result(old(entries)[previousLabel := Link(currentHash)], None)
    {
      rollbackLinks := rollbackLinks[previousLabel := previousHash];
      var removed := Remove(previousLabel, f.removePrevious);
      if !removed.Works? {
        return Some(ErrorOf(removed));
      }
      var linked := Symlink(currentHash, previousLabel, f.linkPrevious);
      if !linked.Works? {
        return Some(ErrorOf(linked));
      }
      assert (old(entries) - {previousLabel})[previousLabel := Link(currentHash)] ==
          old(entries)[previousLabel := Link(currentHash)];
      return None;
    }

    /** Connecting, looking at the images and the candidate's directory. */
    method Prepare(candidateHash: string, validation: bool, f: Faults) returns (error: Option<Error>)
      ensures error == Preparation(entries, f, candidateHash, validation)
    {
      if !f.connect.Works? {
        return Some(ErrorOf(f.connect));
      }
      if validation {
        if !f.listDir.Works? {
          return Some(ErrorOf(f.listDir));
        }
        if !f.enterDir.Works? {
          return Some(ErrorOf(f.enterDir));
        }
        if f.inspect.Breaks? {
          return Some(OtherError);
        }
      }
      if !f.changeDir.Works? {
        return Some(ErrorOf(f.changeDir));
      }
      if f.stat.Breaks? {
        return Some(OtherError);
      }
      if f.stat.Fails? || candidateHash !in entries {
        return Some(PromotionError);
      }
      return None;
    }

    /** Reading, removing and making the links. A failing last symlink is logged and swallowed. */
    method MoveLinks(dest: string, targetLabel: string, createPrevious: bool, f: Faults) returns (error: Option<Error>)
      modifies this
      ensures Result(entries, error) == Moving(old(entries), f, dest, targetLabel, createPrevious)
      ensures rollbackLinks == Noted(old(rollbackLinks), old(entries), f, targetLabel, createPrevious)
    {
      hide PreviousLabel;
      var previousLabel := PreviousLabel(targetLabel);
      PreviousDiffers(targetLabel);
      ReadableIsRemovable(entries, targetLabel, f.readTarget);
      ReadableIsRemovable(entries - {targetLabel}, previousLabel, f.readPrevious);
      UnaffectedRead(entries, targetLabel, previousLabel, f.readPrevious);
      if f.readTarget.Breaks? {
        return Some(OtherError);
      }
      var currentHash := ReadLink(entries, targetLabel, f.readTarget);
      if currentHash.Some? {
        rollbackLinks := rollbackLinks["target_label" := currentHash.value];
        var removed := Remove(targetLabel, f.removeTarget);
        if !removed.Works? {
          return Some(ErrorOf(removed));
        }
      }
      if f.readPrevious.Breaks? {
        return Some(OtherError);
      }
      var previousHash := ReadLink(entries, previousLabel, f.readPrevious);
      if currentHash.Some? && previousHash.Some? && createPrevious {
        error := MovePrevious(previousLabel, currentHash.value, previousHash.value, f);
        if error.Some? {
          return;
        }
      }
      var linked := Symlink(dest, targetLabel, f.linkTarget);
      return if linked.Breaks? then Some(OtherError) else None;
    }

    /** `promote`. */
    method Promote(candidateHash: string, targetLabel: string, createPrevious: bool, validation: bool, f: Faults)
      returns (error: Option<Error>)
      modifies this
      ensures Result(entries, error) ==
              Promotion(old(entries), f, imagesDir, candidateHash, targetLabel, createPrevious, validation)
      ensures rollbackLinks ==
              if Preparation(old(entries), f, candidateHash, validation).Some? then old(rollbackLinks)
              else Noted(old(rollbackLinks), old(entries), f, targetLabel, createPrevious)
    {
      hide Preparation, Moving, Noted;
      error := Prepare(candidateHash, validation, f);
      if error.None? {
        error := MoveLinks(Join(imagesDir, candidateHash), targetLabel, createPrevious, f);
      }
    }
  }

  // ---- One promotion under any faults ----

  /** The entry a name has, or None. */
  function At(entries: Listing, name: string): Option<Entry> {
    if name in entries then Some(entries[name]) else None
  }

  /** A normal return leaves the target link at the candidate's directory, except when the last
      symlink failed: then the link is gone if it had been read, and as before if it had not. The
      previous link becomes the old target exactly when both links were read and it was asked for. */
  lemma NormalReturn(entries: Listing, f: Faults, imagesDir: string, hash: string, target: string,
                     createPrevious: bool, validation: bool)
    requires Promotion(entries, f, imagesDir, hash, target, createPrevious, validation).error.None?
    ensures var r := Promotion(entries, f, imagesDir, hash, target, createPrevious, validation).entries;
            var current := ReadLink(entries, target, f.readTarget);
            var previous := PreviousLabel(target);
            var linkFailed := !f.linkTarget.Works? || (current.None? && target in entries);
            && At(r, target) == (if !linkFailed then Some(Link(Join(imagesDir, hash)))
                                 else if current.Some? then None else At(entries, target))
            && At(r, previous) == (if current.Some? && createPrevious
                && ReadLink(entries, previous, f.readPrevious).Some?
                                   then Some(Link(current.value)) else At(entries, previous))
            && hash in entries
  {
    PreviousDiffers(target);
  }

  /** The old target link was removed. */
  predicate RemovesTarget(entries: Listing, f: Faults, hash: string, target: string, validation: bool) {
    && Preparation(entries, f, hash, validation).None?
    && ReadLink(entries, target, f.readTarget).Some? && f.removeTarget.Works?
  }

  /** Every exit, normal or not: no third name is touched, an absent previous link is never
      created, the previous link is as before, gone, or at the old target according to which
      operation ended its move, and an exception leaves the target as it was or removed. */
  lemma EveryExit(entries: Listing, f: Faults, imagesDir: string, hash: string, target: string,
                  createPrevious: bool, validation: bool)
    ensures var r := Promotion(entries, f, imagesDir, hash, target, createPrevious, validation);
            var previous := PreviousLabel(target);
            var removed := RemovesTarget(entries, f, hash, target, validation);
            && (forall n | n != target && n != previous :: At(r.entries, n) == At(entries, n))
            && (previous !in entries ==> previous !in r.entries)
            && At(r.entries, previous) ==
               (if !removed || !createPrevious || ReadLink(entries, previous, f.readPrevious).None?
                   || !f.removePrevious.Works?
                then At(entries, previous)
                else if !f.linkPrevious.Works? then None else At(entries, target))
            && (r.error.Some? ==> At(r.entries, target) == if removed then None else At(entries, target))
            && (r.error == Some(PromotionError) ==> r.entries == entries)
  {
    PreviousDiffers(target);
  }

  // ---- Which exception ends a promotion ----

  /** The operations of one promotion. */
  datatype Operation =
    | Connect | ListDir | EnterDir | Inspect | ChangeDir | Stat
    | ReadTarget | RemoveTarget | ReadPrevious | RemovePrevious | LinkPrevious | LinkTarget

  /** Their order. */
  function Rank(o: Operation): nat {
    match o
    case Connect => 0
    case ListDir => 1
    case EnterDir => 2
    case Inspect => 3
    case ChangeDir => 4
    case Stat => 5
    case ReadTarget => 6
    case RemoveTarget => 7
    case ReadPrevious => 8
    case RemovePrevious => 9
    case LinkPrevious => 10
    case LinkTarget => 11
  }

  function FaultOf(f: Faults, o: Operation): Fault {
    match o
    case Connect => f.connect
    case ListDir => f.listDir
    case EnterDir => f.enterDir
    case Inspect => f.inspect
    case ChangeDir => f.changeDir
    case Stat => f.stat
    case ReadTarget => f.readTarget
    case RemoveTarget => f.removeTarget
    case ReadPrevious => f.readPrevious
    case RemovePrevious => f.removePrevious
    case LinkPrevious => f.linkPrevious
    case LinkTarget => f.linkTarget
  }

  /** The operations that a promotion comes to when none before them ends it: the images are looked at
      only for a validation, a target is removed that was read as a link, and a previous link moved
      when both links were read and it was asked for. */
  predicate Wanted(entries: Listing, f: Faults, target: string, createPrevious: bool, validation: bool, o: Operation) {
    match o
    case ListDir | EnterDir | Inspect => validation
    case RemoveTarget => ReadLink(entries, target, f.readTarget).Some?
    case RemovePrevious | LinkPrevious =>
      && createPrevious && ReadLink(entries, target, f.readTarget).Some?
      && ReadLink(entries, PreviousLabel(target), f.readPrevious).Some?
    case _ => true
  }

  /** An EnvironmentError of these is logged, and the promotion goes on. */
  predicate Tolerated(o: Operation) {
    o.Inspect? || o.ReadTarget? || o.ReadPrevious? || o.LinkTarget?
  }

  /** The operation ends the promotion when it is come to. */
  predicate Ends(entries: Listing, f: Faults, hash: string, target: string, createPrevious: bool, validation: bool,
                 o: Operation)
  {
    && Wanted(entries, f, target, createPrevious, validation, o)
    && (FaultOf(f, o).Breaks? || (!Tolerated(o) && FaultOf(f, o).Fails?) || (o.Stat? && hash !in entries))
  }

  /** The exception it ends in: a missing candidate is a PromotionError. */
  function Raises(f: Faults, o: Operation): Error {
    if FaultOf(f, o).Breaks? then OtherError else if o.Stat? then PromotionError else EnvironmentError
  }

  /** It is the first that does. */
  ghost predicate EndsFirst(entries: Listing, f: Faults, hash: string, target: string, createPrevious: bool,
                            validation: bool, o: Operation)
  {
    && Ends(entries, f, hash, target, createPrevious, validation, o)
    && forall p | Rank(p) < Rank(o) :: !Ends(entries, f, hash, target, createPrevious, validation, p)
  }

  lemma PreparationEnds(entries: Listing, f: Faults, hash: string, target: string, createPrevious: bool,
                        validation: bool, o: Operation)
    requires Rank(o) <= 5
    ensures Preparation(entries, f, hash, validation).None? ==>
              !Ends(entries, f, hash, target, createPrevious, validation, o)
    ensures EndsFirst(entries, f, hash, target, createPrevious, validation, o) ==>
              Preparation(entries, f, hash, validation) == Some(Raises(f, o))
  {
    assert Rank(Connect) == 0 && Rank(ListDir) == 1 && Rank(EnterDir) == 2 && Rank(Inspect) == 3
           && Rank(ChangeDir) == 4;
  }

  lemma MovingEnds(entries: Listing, f: Faults, dest: string, hash: string, target: string, createPrevious: bool,
                   validation: bool, o: Operation)
    requires Rank(o) >= 6
    ensures Moving(entries, f, dest, target, createPrevious).error.None? ==>
              !Ends(entries, f, hash, target, createPrevious, validation, o)
    ensures EndsFirst(entries, f, hash, target, createPrevious, validation, o) ==>
              Moving(entries, f, dest, target, createPrevious).error == Some(Raises(f, o))
  {
    hide PreviousLabel, ReadLink;
    assert Rank(ReadTarget) == 6 && Rank(RemoveTarget) == 7 && Rank(ReadPrevious) == 8 && Rank(RemovePrevious) == 9
           && Rank(LinkPrevious) == 10;
  }

  /** What raises is an operation that ends the promotion. */
  lemma SomethingEnds(entries: Listing, f: Faults, imagesDir: string, hash: string, target: string,
                      createPrevious: bool, validation: bool)
    returns (o: Operation)
    requires Promotion(entries, f, imagesDir, hash, target, createPrevious, validation).error.Some?
    ensures Ends(entries, f, hash, target, createPrevious, validation, o)
  {
    hide Join, PreviousLabel, ReadLink;
    if Preparation(entries, f, hash, validation).Some? {
      o := SomethingEarly(entries, f, hash, target, createPrevious, validation);
    } else {
      o := if f.readTarget.Breaks? then ReadTarget
           else if ReadLink(entries, target, f.readTarget).Some? && !f.removeTarget.Works? then RemoveTarget
           else if f.readPrevious.Breaks? then ReadPrevious
           else if !f.removePrevious.Works? && Wanted(entries, f, target, createPrevious, validation, RemovePrevious)
               then RemovePrevious
           else if !f.linkPrevious.Works? && Wanted(entries, f, target, createPrevious, validation, LinkPrevious)
               then LinkPrevious
           else LinkTarget;
    }
  }

  /** A promotion returns normally if and only if none of its operations ends it, and otherwise ends in
      the exception of the first that does. */
  lemma EndsAsFirstFailure(entries: Listing, f: Faults, imagesDir: string, hash: string, target: string,
                           createPrevious: bool, validation: bool)
    ensures var r := Promotion(entries, f, imagesDir, hash, target, createPrevious, validation);
            && (r.error.None? <==> forall o :: !Ends(entries, f, hash, target, createPrevious, validation, o))
            && forall o | EndsFirst(entries, f, hash, target, createPrevious, validation, o) ::
                 r.error == Some(Raises(f, o))
  {
    hide Join, Preparation, Moving, Ends, Raises;
    var r := Promotion(entries, f, imagesDir, hash, target, createPrevious, validation);
    forall o
      ensures r.error.None? ==> !Ends(entries, f, hash, target, createPrevious, validation, o)
      ensures EndsFirst(entries, f, hash, target, createPrevious, validation, o) ==> r.error == Some(Raises(f, o))
    {
      if Rank(o) <= 5 {
        PreparationEnds(entries, f, hash, target, createPrevious, validation, o);
      } else {
        MovingEnds(entries, f, Join(imagesDir, hash), hash, target, createPrevious, validation, o);
        if Preparation(entries, f, hash, validation).Some? && EndsFirst(entries, f, hash, target, createPrevious,
            validation, o) {
          var p := SomethingEarly(entries, f, hash, target, createPrevious, validation);
          assert Rank(p) < Rank(o);
        }
      }
    }
    if r.error.Some? {
      var o := SomethingEnds(entries, f, imagesDir, hash, target, createPrevious, validation);
    }
  }

  lemma SomethingEarly(entries: Listing, f: Faults, hash: string, target: string, createPrevious: bool,
                       validation: bool)
    returns (o: Operation)
    requires Preparation(entries, f, hash, validation).Some?
    ensures Rank(o) <= 5 && Ends(entries, f, hash, target, createPrevious, validation, o)
  {
    hide PreviousLabel, ReadLink;
    o := if !f.connect.Works? then Connect
         else if validation && !f.listDir.Works? then ListDir
         else if validation && !f.enterDir.Works? then EnterDir
         else if validation && f.inspect.Breaks? then Inspect
         else if !f.changeDir.Works? then ChangeDir
         else Stat;
  }

  /** What is noted for a rollback: the old target, when it was read as a link, under a word that is no
      label's name, and the old previous link when its move is come to; nothing else changes. */
  lemma NotesAre(links: map<string, string>, entries: Listing, f: Faults, target: string, createPrevious: bool,
                 validation: bool)
    ensures var r, previous := Noted(links, entries, f, target, createPrevious), PreviousLabel(target);
            var read := ReadLink(entries, target, f.readTarget).Some?;
            var wanted := Wanted(entries, f, target, createPrevious, validation, RemovePrevious);
            var moves := wanted && f.removeTarget.Works?;
            && previous != "target_label"
            && (forall n :: n in r <==> n in links || (n == "target_label" && read) || (n == previous && moves))
            && (forall n | n in r ::
                 if n == "target_label" && read then entries[target] == Link(r[n])
                 else if n == previous && moves then entries[previous] == Link(r[n])
                 else n in links && r[n] == links[n])
  {
    hide PreviousLabel;
    NameStarts(target);
    assert "target_label"[0] == 't';
  }

  lemma NameStarts(target: string)
    ensures PreviousLabel(target) != [] && PreviousLabel(target)[0] == 'p'
  {
  }

  // ---- Sequences of promotions ----

  /** Fault-free promotions of one candidate after the other. */
  function Promotions(entries: Listing, imagesDir: string, hashes: seq<string>, target: string): Listing
    decreases |hashes|
  {
    if hashes == [] then entries
    else
      var before := Promotions(entries, imagesDir, hashes[..|hashes| - 1], target);
      Promotion(before, NO_FAULTS, imagesDir, hashes[|hashes| - 1], target, true, true).entries
  }

  lemma JoinIsNotEmpty(dir: string, name: string)
    requires name != ""
    ensures Join(dir, name) != ""
  {
    assert |Join(dir, name)| >= |name|;
  }

  /** Starting from both links, n fault-free promotions leave the target at the last candidate
      and the previous link at the one before it, and nothing else changed. */
  lemma {:induction false} TargetAndPrevious(entries: Listing, imagesDir: string, hashes: seq<string>, target: string)
    requires IsLabel(entries, target) && IsLabel(entries, PreviousLabel(target))
    requires forall h | h in hashes :: h in entries && h != target && h != PreviousLabel(target) && h != ""
    ensures var r := Promotions(entries, imagesDir, hashes, target);
            var n := |hashes|;
            && At(r, target) == (if n == 0 then At(entries, target) else Some(Link(Join(imagesDir, hashes[n - 1]))))
            && At(r, PreviousLabel(target)) ==
                 (if n == 0 then At(entries, PreviousLabel(target))
                  else if n == 1 then At(entries, target)
                  else Some(Link(Join(imagesDir, hashes[n - 2]))))
            && forall k | k != target && k != PreviousLabel(target) :: At(r, k) == At(entries, k)
    decreases |hashes|
  {
    if hashes == [] {
    } else {
      hide Join, Promotion;
      var n := |hashes|;
      var init := hashes[..n - 1];
      assert forall h | h in init :: h in hashes;
      TargetAndPrevious(entries, imagesDir, init, target);
      var before := Promotions(entries, imagesDir, init, target);
      assert hashes[n - 1] in hashes && At(before, hashes[n - 1]) == At(entries, hashes[n - 1]);
      PreviousDiffers(target);
      if n > 1 {
        assert hashes[n - 2] in hashes && init[n - 2] == hashes[n - 2];
        JoinIsNotEmpty(imagesDir, hashes[n - 2]);
      }
      if n > 2 {
        assert hashes[n - 3] in hashes && init[n - 3] == hashes[n - 3];
        JoinIsNotEmpty(imagesDir, hashes[n - 3]);
      }
      FaultFree(before, imagesDir, hashes[n - 1], target);
    }
  }

  /** A link that can be read and is taken for one. */
  predicate IsLabel(entries: Listing, name: string) {
    ReadLink(entries, name, Works).Some?
  }

  lemma FaultFree(entries: Listing, imagesDir: string, hash: string, target: string)
    requires hash in entries && IsLabel(entries, target) && IsLabel(entries, PreviousLabel(target))
    ensures var r := Promotion(entries, NO_FAULTS, imagesDir, hash, target, true, true).entries;
            && At(r, target) == Some(Link(Join(imagesDir, hash)))
            && At(r, PreviousLabel(target)) == At(entries, target)
            && forall n | n != target && n != PreviousLabel(target) :: At(r, n) == At(entries, n)
  {
    NormalReturn(entries, NO_FAULTS, imagesDir, hash, target, true, true);
    EveryExit(entries, NO_FAULTS, imagesDir, hash, target, true, true);
  }

  // ---- Promoting again ----

  /** The last link is made: nothing before it raised, every removal and link that the code came
      to worked, and the target was free or removed. */
  predicate LinkMade(entries: Listing, f: Faults, hash: string, target: string, createPrevious: bool, validation: bool)
  {
    var current := ReadLink(entries, target, f.readTarget);
    var moves := current.Some? && createPrevious && ReadLink(entries, PreviousLabel(target), f.readPrevious).Some?;
    && Preparation(entries, f, hash, validation).None?
    && !f.readTarget.Breaks? && !f.readPrevious.Breaks?
    && (if current.Some? then f.removeTarget.Works? else target !in entries)
    && (moves ==> f.removePrevious.Works? && f.linkPrevious.Works?)
    && f.linkTarget.Works?
  }

  /** The last link was not made, and a second promotion finds in place what it needs: the target
      link was never removed, or there is no previous link to move, or it was moved already, or it
      stands at the old target. */
  predicate Repairable(entries: Listing, f: Faults, hash: string, target: string, createPrevious: bool,
                       validation: bool)
  {
    || !RemovesTarget(entries, f, hash, target, validation)
    || !createPrevious || !IsLabel(entries, PreviousLabel(target))
    || (if f.readPrevious.Works? && f.removePrevious.Works? then f.linkPrevious.Works?
        else At(entries, PreviousLabel(target)) == At(entries, target))
  }

  /** The last link was made, and a second promotion, which finds the candidate as the incumbent,
      does no harm: there is no previous link to move, or it would have been at the candidate anyhow. */
  predicate Harmless(entries: Listing, dest: string, target: string, createPrevious: bool) {
    || !createPrevious || !IsLabel(entries, PreviousLabel(target))
    || (if IsLabel(entries, target) then entries[target] else entries[PreviousLabel(target)]) == Link(dest)
  }

  lemma SameEntries(a: Listing, b: Listing)
    requires forall n :: At(a, n) == At(b, n)
    ensures a == b
  {
    forall n ensures (n in a <==> n in b) && (n in a ==> a[n] == b[n]) {
      assert At(a, n) == At(b, n);
    }
  }

  /** An attempt that did not make the last link leaves the target removed or as it was. */
  lemma AfterFailure(entries: Listing, f: Faults, imagesDir: string, hash: string, target: string,
                     createPrevious: bool, validation: bool)
    requires !LinkMade(entries, f, hash, target, createPrevious, validation)
    ensures At(Promotion(entries, f, imagesDir, hash, target, createPrevious, validation).entries, target) ==
            if RemovesTarget(entries, f, hash, target, validation) then None else At(entries, target)
  {
    PreviousDiffers(target);
  }

  /** An attempt that made the last link returned normally. */
  lemma AfterSuccess(entries: Listing, f: Faults, imagesDir: string, hash: string, target: string,
                     createPrevious: bool, validation: bool)
    requires LinkMade(entries, f, hash, target, createPrevious, validation)
    ensures var r := Promotion(entries, f, imagesDir, hash, target, createPrevious, validation);
            r.error.None? && At(r.entries, target) == Some(Link(Join(imagesDir, hash)))
    ensures LinkMade(entries, NO_FAULTS, hash, target, createPrevious, validation)
  {
    PreviousDiffers(target);
  }

  /** Promoting a candidate again without faults, after an attempt with any faults whatever, on any
      directory, reaches exactly what one fault-free promotion reaches, if and only if the attempt
      was harmless, when it made the last link, or repairable, when it did not. */
  lemma RetryRepairsIff(entries: Listing, f: Faults, imagesDir: string, hash: string, target: string,
                        createPrevious: bool, validation: bool)
    requires hash != "" && hash != target && hash != PreviousLabel(target)
    ensures var tried := Promotion(entries, f, imagesDir, hash, target, createPrevious, validation).entries;
            Promotion(tried, NO_FAULTS, imagesDir, hash, target, createPrevious, validation) ==
            Promotion(entries, NO_FAULTS, imagesDir, hash, target, createPrevious, validation)
            <==> if LinkMade(entries, f, hash, target, createPrevious, validation)
                 then Harmless(entries, Join(imagesDir, hash), target, createPrevious)
                 else Repairable(entries, f, hash, target, createPrevious, validation)
  {
    if LinkMade(entries, f, hash, target, createPrevious, validation) {
      HarmlessIff(entries, f, imagesDir, hash, target, createPrevious, validation);
    } else {
      RepairableIff(entries, f, imagesDir, hash, target, createPrevious, validation);
    }
  }

  lemma HarmlessIff(entries: Listing, f: Faults, imagesDir: string, hash: string, target: string,
                    createPrevious: bool, validation: bool)
    requires hash != "" && hash != target && hash != PreviousLabel(target)
    requires LinkMade(entries, f, hash, target, createPrevious, validation)
    ensures var tried := Promotion(entries, f, imagesDir, hash, target, createPrevious, validation).entries;
            Promotion(tried, NO_FAULTS, imagesDir, hash, target, createPrevious, validation) ==
            Promotion(entries, NO_FAULTS, imagesDir, hash, target, createPrevious, validation)
            <==> Harmless(entries, Join(imagesDir, hash), target, createPrevious)
  {
    hide Join, Promotion;
    PreviousDiffers(target);
    JoinIsNotEmpty(imagesDir, hash);
    AfterSuccess(entries, f, imagesDir, hash, target, createPrevious, validation);
    AfterSuccess(entries, NO_FAULTS, imagesDir, hash, target, createPrevious, validation);
    EveryExit(entries, f, imagesDir, hash, target, createPrevious, validation);
    EveryExit(entries, NO_FAULTS, imagesDir, hash, target, createPrevious, validation);
    var tried := Promotion(entries, f, imagesDir, hash, target, createPrevious, validation).entries;
    assert At(tried, hash) == At(entries, hash);
    AfterSuccess(tried, NO_FAULTS, imagesDir, hash, target, createPrevious, validation);
    EveryExit(tried, NO_FAULTS, imagesDir, hash, target, createPrevious, validation);
    var once := Promotion(entries, NO_FAULTS, imagesDir, hash, target, createPrevious, validation).entries;
    var again := Promotion(tried, NO_FAULTS, imagesDir, hash, target, createPrevious, validation).entries;
    if At(once, PreviousLabel(target)) == At(again, PreviousLabel(target)) {
      SameEntries(once, again);
    }
  }

  lemma RepairableIff(entries: Listing, f: Faults, imagesDir: string, hash: string, target: string,
                      createPrevious: bool, validation: bool)
    requires hash != target && hash != PreviousLabel(target)
    requires !LinkMade(entries, f, hash, target, createPrevious, validation)
    ensures var tried := Promotion(entries, f, imagesDir, hash, target, createPrevious, validation).entries;
            Promotion(tried, NO_FAULTS, imagesDir, hash, target, createPrevious, validation) ==
            Promotion(entries, NO_FAULTS, imagesDir, hash, target, createPrevious, validation)
            <==> Repairable(entries, f, hash, target, createPrevious, validation)
  {
    hide Join;
    PreviousDiffers(target);
    var failed := Promotion(entries, f, imagesDir, hash, target, createPrevious, validation).entries;
    EveryExit(entries, f, imagesDir, hash, target, createPrevious, validation);
    AfterFailure(entries, f, imagesDir, hash, target, createPrevious, validation);
    assert At(failed, hash) == At(entries, hash);
    if hash in entries {
      if !RemovesTarget(entries, f, hash, target, validation) {
        SameEntries(entries, failed);
      } else {
        var previous := PreviousLabel(target);
        NormalReturn(entries, NO_FAULTS, imagesDir, hash, target, createPrevious, validation);
        NormalReturn(failed, NO_FAULTS, imagesDir, hash, target, createPrevious, validation);
        EveryExit(entries, NO_FAULTS, imagesDir, hash, target, createPrevious, validation);
        EveryExit(failed, NO_FAULTS, imagesDir, hash, target, createPrevious, validation);
        var first := Promotion(entries, NO_FAULTS, imagesDir, hash, target, createPrevious, validation).entries;
        var retried := Promotion(failed, NO_FAULTS, imagesDir, hash, target, createPrevious, validation).entries;
        if At(first, previous) == At(retried, previous) {
          SameEntries(first, retried);
        }
      }
    }
  }

  /** A promotion repeated although it had succeeded, as happens when a later client failed: the
      candidate is taken for the incumbent, and the old target has no link any more. */
  lemma RepeatingLosesTheIncumbent()
    ensures var entries := map["new" := Directory, "old" := Directory, "older" := Directory,
                               "label" := Link("old"), "previous-label" := Link("older")];
            var once := Promotion(entries, NO_FAULTS, "", "new", "label", true, true);
            var twice := Promotion(once.entries, NO_FAULTS, "", "new", "label", true, true);
            && once.error.None? && twice.error.None?
            && At(once.entries, "previous-label") == Some(Link("old"))
            && At(twice.entries, "label") == At(twice.entries, "previous-label") == Some(Link("new"))
  {
    assert PreviousLabel("label") == "previous-label";
    assert Join("", "new") == "new";
  }

  /** A read of the previous link that failed and was swallowed has the same effect: both links
      stood at the old target, and after the second promotion neither does. */
  lemma SwallowedReadLosesTheIncumbent()
    ensures var entries := map["new" := Directory, "old" := Directory,
                               "label" := Link("old"), "previous-label" := Link("old")];
            var once := Promotion(entries, NO_FAULTS.(readPrevious := Fails), "", "new", "label", true, true);
            var twice := Promotion(once.entries, NO_FAULTS, "", "new", "label", true, true);
            && once.error.None? && twice.error.None?
            && At(once.entries, "previous-label") == Some(Link("old"))
            && At(twice.entries, "label") == At(twice.entries, "previous-label") == Some(Link("new"))
  {
    assert PreviousLabel("label") == "previous-label";
    assert Join("", "new") == "new";
  }

  /** A retry after the target was removed moves the target to the candidate and leaves the previous
      link as the failed attempt left it: gone when its link failed, at its older value when its
      removal failed. Unless that is the old target already, the old target is lost. */
  lemma RetryLosesTheIncumbent(entries: Listing, f: Faults, imagesDir: string, hash: string, target: string,
                               validation: bool)
    requires Promotion(entries, f, imagesDir, hash, target, true, validation).error.Some?
    requires RemovesTarget(entries, f, hash, target, validation) && IsLabel(entries, PreviousLabel(target))
    requires hash != target && hash != PreviousLabel(target)
    ensures var failed := Promotion(entries, f, imagesDir, hash, target, true, validation).entries;
            var retried := Promotion(failed, NO_FAULTS, imagesDir, hash, target, true, validation);
            && retried.error.None?
            && At(retried.entries, target) == Some(Link(Join(imagesDir, hash)))
            && At(retried.entries, PreviousLabel(target)) ==
               (if !f.readPrevious.Works? || !f.removePrevious.Works? then At(entries, PreviousLabel(target))
                else if !f.linkPrevious.Works? then None else At(entries, target))
  {
    hide Join;
    PreviousDiffers(target);
    EveryExit(entries, f, imagesDir, hash, target, true, validation);
    var failed := Promotion(entries, f, imagesDir, hash, target, true, validation).entries;
    assert At(failed, hash) == At(entries, hash);
    NormalReturn(failed, NO_FAULTS, imagesDir, hash, target, true, validation);
  }

  /** A directory where it happens: the previous link cannot be made, and after the retry no link
      leads to the old target any more. */
  lemma IncumbentIsLost()
    ensures var entries := map["new" := Directory, "old" := Directory, "older" := Directory,
                               "label" := Link("old"), "previous-label" := Link("older")];
            var failed := Promotion(entries, NO_FAULTS.(linkPrevious := Fails), "", "new", "label", true, true);
            var retried := Promotion(failed.entries, NO_FAULTS, "", "new", "label", true, true);
            && failed.error == Some(EnvironmentError) && retried.error.None?
            && retried.entries == map["new" := Directory, "old" := Directory, "older" := Directory,
                "label" := Link("new")]
            && Promotion(entries, NO_FAULTS, "", "new", "label", true, true).entries["previous-label"] == Link("old")
  {
    assert PreviousLabel("label") == "previous-label";
    assert Join("", "new") == "new";
  }
}
