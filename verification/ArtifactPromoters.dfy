/** artifact_promoter.py: creating an artifact file and moving a label link to it as one
    transaction, with a rollback, under faults at every file operation. */
module ArtifactPromoters {
  import opened Outcomes

  datatype Entry = File(content: string) | Link(dest: string)

  type Listing = map<string, Entry>

  /** What happens to each operation; those of the rollback raise or not. */
  datatype Faults = Faults(
    stat: Fault, open: Fault, write: Fault, close: Fault, readLink: Fault, unlink: Fault, symlink: Fault,
    rollbackRemove: bool, rollbackUnlink: bool, rollbackSymlink: bool)

  const NO_FAULTS := Faults(Works, Works, Works, Works, Works, Works, Works, false, false, false)

  /** Where a name leads, following links. */
  datatype Resolved = Found(name: string) | Missing(name: string) | Loop

  function Resolve(entries: Listing, name: string, hops: nat): Resolved
    decreases hops
  {
    if name !in entries then Missing(name)
    else if entries[name].File? then Found(name)
    else if hops == 0 then Loop
    else Resolve(entries, entries[name].dest, hops - 1)
  }

  const MAX_HOPS := 40

  predicate IsLink(entries: Listing, name: string) {
    name in entries && entries[name].Link?
  }

  /** A link that leads to no file. */
  predicate Dangling(entries: Listing, name: string) {
    IsLink(entries, name) && Resolve(entries, name, MAX_HOPS).Missing?
  }

  function At(entries: Listing, name: string): Option<Entry> {
    if name in entries then Some(entries[name]) else None
  }

  datatype Result = Result(entries: Listing, error: Option<Error>)

  function ErrorOf(f: Fault): Error {
    if f.Fails? then PromoterError else OtherError
  }

  // ---- The steps of the transaction ----

  /** `stat(file_name)`: whether the file exists, or the exception the promotion ends in. */
  function Stat(entries: Listing, fileName: string, f: Faults): Outcome<bool> {
    var r := Resolve(entries, fileName, MAX_HOPS);
    if !f.stat.Works? || r.Loop? then Raised(PromoterError) else Returned(r.Found?)
  }

  /** Opening for writing creates the file the name leads to. */
  function Opened(entries: Listing, fileName: string): Listing
    requires Resolve(entries, fileName, MAX_HOPS).Missing?
  {
    entries[Resolve(entries, fileName, MAX_HOPS).name := File("")]
  }

  /** The entries after the file was created, and the fault that stopped it, if any. */
  function Create(entries: Listing, fileName: string, content: string, f: Faults): (Listing, Fault)
    requires Resolve(entries, fileName, MAX_HOPS).Missing?
  {
    var started := Opened(entries, fileName);
    if !f.open.Works? then (entries, f.open)
    else if content != "" && !f.write.Works? then (started, f.write)
    else
      var written := entries[Resolve(entries, fileName, MAX_HOPS).name := File(content)];
      (written, f.close)
  }

  /** Removing files in a rollback: those that are there go, unless removing fails. */
  function Removed(entries: Listing, files: seq<string>, f: Faults): Listing {
    if f.rollbackRemove then entries else entries - (set n | n in files)
  }

  /** Re-creating links in a rollback: a label is unlinked first, and linked again only if that
      worked, so a label that is gone stays gone. */
  function Relinked(entries: Listing, links: map<string, string>, f: Faults): Listing {
    if f.rollbackUnlink then entries
    else if f.rollbackSymlink then entries - links.Keys
    else map n | n in entries :: if n in links then Link(links[n]) else entries[n]
  }

  function RolledBack(entries: Listing, files: seq<string>, links: map<string, string>, f: Faults): Listing {
    Relinked(Removed(entries, files, f), links, f)
  }

  /** The part from reading the label on, with the files this promotion made. */
  function Relink(entries: Listing, made: seq<string>, fileName: string, target: string, f: Faults): Result {
    var previous := if f.readLink.Works? && IsLink(entries, target) && entries[target].dest != ""
                    then Some(entries[target].dest) else None;
    if f.readLink.Breaks? then Result(entries, Some(OtherError))
    else if previous == Some(fileName) then Result(entries, None)
    else if previous.Some? && f.unlink.Fails? then Result(RolledBack(entries, made, map[], f), Some(PromoterError))
    else if previous.Some? && f.unlink.Breaks? then Result(entries, Some(OtherError))
    else
      var cleared := if previous.Some? then entries - {target} else entries;
      var links := if previous.Some? then map[target := previous.value] else map[];
      if f.symlink.Breaks? then Result(cleared, Some(OtherError))
      else if f.symlink.Works? && target !in cleared then Result(cleared[target := Link(fileName)], None)
      else Result(RolledBack(cleared, made, links, f), Some(PromoterError))
  }

  /** `promote_file_artifact`. */
  function Transaction(entries: Listing, f: Faults, target: string, fileName: string, content: string): Result {
    match Stat(entries, fileName, f)
    case Raised(e) => Result(entries, Some(e))
    case Returned(true) => Relink(entries, [], fileName, target, f)
    case Returned(false) =>
      var (made, fault) := Create(entries, fileName, content, f);
      if fault.Works? then Relink(made, [fileName], fileName, target, f)
      else if fault.Fails? then
        Result(RolledBack(made, if f.open.Works? then [fileName] else [], map[], f), Some(PromoterError))
      else Result(made, Some(OtherError))
  }

  class FileArtifactPromoter {
    var entries: Listing
    /** Supported (candidate, target) pairs; none means any. */
    var supportedPromotions: seq<(string, string)>

    constructor (entries: Listing, supportedPromotions: seq<(string, string)>)
      ensures this.entries == entries && this.supportedPromotions == supportedPromotions
    {
      this.entries := entries;
      this.supportedPromotions := supportedPromotions;
    }

    method Validate(targetLabel: string, candidateLabel: string) returns (ok: bool)
      ensures ok <==> supportedPromotions == [] || (candidateLabel, targetLabel) in supportedPromotions
    {
      if supportedPromotions == [] {
        return true;
      }
      for n := 0 to |supportedPromotions|
        invariant (candidateLabel, targetLabel) !in supportedPromotions[..n]
      {
        if supportedPromotions[n] == (candidateLabel, targetLabel) {
          return true;
        }
      }
      return false;
    }

    method Remove(name: string, fault: bool) returns (ok: bool)
      modifies this`entries
      ensures ok == (!fault && name in old(entries))
      ensures entries == if ok then old(entries) - {name} else old(entries)
    {
      ok := !fault && name in entries;
      if ok {
        entries := entries - {name};
      }
    }

    method Symlink(dest: string, name: string, fault: bool) returns (ok: bool)
      modifies this`entries
      ensures ok == (!fault && name !in old(entries))
      ensures entries == if ok then old(entries)[name := Link(dest)] else old(entries)
    {
      ok := !fault && name !in entries;
      if ok {
        entries := entries[name := Link(dest)];
      }
    }

    /** `rollback`: remove files, then unlink and re-create links; every failure is swallowed. */
    method Rollback(removeFiles: seq<string>, previousLinks: map<string, string>, f: Faults)
      modifies this`entries
      ensures entries == RolledBack(old(entries), removeFiles, previousLinks, f)
    {
      for n := 0 to |removeFiles|
        invariant entries == Removed(old(entries), removeFiles[..n], f)
      {
        var _ := Remove(removeFiles[n], f.rollbackRemove);
        assert removeFiles[..n + 1] == removeFiles[..n] + [removeFiles[n]];
      }
      assert removeFiles[..|removeFiles|] == removeFiles;
      RestoreLinks(previousLinks, f);
    }

    method RestoreLinks(previousLinks: map<string, string>, f: Faults)
      modifies this`entries
      ensures entries == Relinked(old(entries), previousLinks, f)
    {
      var left := previousLinks.Keys;
      ghost var was := entries;
      while left != {}
        invariant left <= previousLinks.Keys
        invariant entries == Relinked(was, previousLinks - left, f)
      {
        var l :| l in left;
        left := left - {l};
        var unlinked := Remove(l, f.rollbackUnlink);
        if unlinked {
          var _ := Symlink(previousLinks[l], l, f.rollbackSymlink);
        }
        assert (previousLinks - left).Keys == (previousLinks - left - {l}).Keys + {l};
      }
      assert previousLinks - left == previousLinks;
    }

    /** Creating the artifact: the files a rollback must remove, and what stopped it. */
    method CreateArtifact(fileName: string, fileContent: string, f: Faults)
      returns (rollbackFiles: seq<string>, fault: Fault)
      requires Resolve(entries, fileName, MAX_HOPS).Missing?
      modifies this`entries
      ensures (entries, fault) == Create(old(entries), fileName, fileContent, f)
      ensures rollbackFiles == if f.open.Works? then [fileName] else []
    {
      if !f.open.Works? {
        return [], f.open;
      }
      var newFile := Resolve(entries, fileName, MAX_HOPS).name;
      entries := Opened(entries, fileName);
      rollbackFiles := [fileName];
      if fileContent != "" {
        if !f.write.Works? {
          return rollbackFiles, f.write;
        }
        entries := entries[newFile := File(fileContent)];
      }
      assert entries == old(entries)[newFile := File(fileContent)];
      return rollbackFiles, f.close;
    }

    /** Moving the label to the artifact. */
    method MoveLabel(targetLabel: string, fileName: string, rollbackFiles: seq<string>, f: Faults)
      returns (error: Option<Error>)
      modifies this`entries
      ensures Result(entries, error) == Relink(old(entries), rollbackFiles, fileName, targetLabel, f)
    {
      hide RolledBack;
      if f.readLink.Breaks? {
        return Some(OtherError);
      }
      var previousFileName := if f.readLink.Works? && IsLink(entries, targetLabel) && entries[targetLabel].dest != ""
                              then Some(entries[targetLabel].dest) else None;
      var rollbackPreviousLinks := map[];
      if previousFileName.Some? {
        if previousFileName.value == fileName {
          return None;
        }
        rollbackPreviousLinks := map[targetLabel := previousFileName.value];
        if f.unlink.Fails? {
          Rollback(rollbackFiles, map[], f);
        }
        if !f.unlink.Works? {
          return Some(ErrorOf(f.unlink));
        }
        var _ := Remove(targetLabel, false);
      }
      if f.symlink.Breaks? {
        return Some(OtherError);
      }
      var linked := Symlink(fileName, targetLabel, f.symlink.Fails?);
      if !linked {
        Rollback(rollbackFiles, rollbackPreviousLinks, f);
        return Some(PromoterError);
      }
      return None;
    }

    method PromoteFileArtifact(targetLabel: string, fileName: string, fileContent: string, f: Faults)
      returns (error: Option<Error>)
      modifies this`entries
      ensures Result(entries, error) == Transaction(old(entries), f, targetLabel, fileName, fileContent)
    {
      hide RolledBack, Relink;
      var existing := Stat(entries, fileName, f);
      if existing.Raised? {
        return Some(existing.error);
      }
      var rollbackFiles := [];
      if !existing.value {
        var fault;
        rollbackFiles, fault := CreateArtifact(fileName, fileContent, f);
        if fault.Fails? {
          Rollback(rollbackFiles, map[], f);
        }
        if !fault.Works? {
          return Some(ErrorOf(fault));
        }
      }
      error := MoveLabel(targetLabel, fileName, rollbackFiles, f);
    }
  }

  // ---- Which exception ends a promotion, and what it leaves ----

  /** The operations of one promotion, in order. */
  datatype Operation = StatFile | OpenFile | WriteFile | CloseFile | ReadLabel | UnlinkLabel | LinkLabel

  function Rank(o: Operation): nat {
    match o
    case StatFile => 0
    case OpenFile => 1
    case WriteFile => 2
    case CloseFile => 3
    case ReadLabel => 4
    case UnlinkLabel => 5
    case LinkLabel => 6
  }

  function FaultOf(f: Faults, o: Operation): Fault {
    match o
    case StatFile => f.stat
    case OpenFile => f.open
    case WriteFile => f.write
    case CloseFile => f.close
    case ReadLabel => f.readLink
    case UnlinkLabel => f.unlink
    case LinkLabel => f.symlink
  }

  /** The label is read as a link to something. */
  predicate LabelRead(entries: Listing, f: Faults, target: string) {
    f.readLink.Works? && IsLink(entries, target) && entries[target].dest != ""
  }

  /** The artifact's file is not there yet. */
  predicate ToCreate(entries: Listing, fileName: string) {
    Resolve(entries, fileName, MAX_HOPS).Missing?
  }

  /** The operations that a promotion comes to when none before them ends it: a file is created when it
      is missing, a label removed that links to something else, and linked unless it links there. */
  predicate Wanted(entries: Listing, f: Faults, target: string, fileName: string, content: string, o: Operation) {
    match o
    case StatFile | ReadLabel => true
    case OpenFile | CloseFile => ToCreate(entries, fileName)
    case WriteFile => ToCreate(entries, fileName) && content != ""
    case UnlinkLabel => LabelRead(entries, f, target) && entries[target].dest != fileName
    case LinkLabel => !(LabelRead(entries, f, target) && entries[target].dest == fileName)
  }

  /** The name of the label is still taken when it is to be linked. */
  predicate Taken(entries: Listing, f: Faults, target: string, fileName: string) {
    || (target in entries && !LabelRead(entries, f, target))
    || (ToCreate(entries, fileName) && target == Resolve(entries, fileName, MAX_HOPS).name)
  }

  /** The exception in which an operation ends the promotion when it is come to: an EnvironmentError is
      turned into a PromoterError, except that a label that cannot be read counts as missing; anything
      that goes wrong with the first look at the file is a PromoterError, and so is a label whose name
      is taken; other exceptions escape. */
  function Raises(entries: Listing, f: Faults, target: string, fileName: string, o: Operation): Option<Error> {
    if o.StatFile? then
      if f.stat.Works? && !Resolve(entries, fileName, MAX_HOPS).Loop? then None else Some(PromoterError)
    else if FaultOf(f, o).Breaks? then Some(OtherError)
    else if (FaultOf(f, o).Fails? && !o.ReadLabel?) || (o.LinkLabel? && Taken(entries, f, target, fileName)) then
      Some(PromoterError)
    else None
  }

  predicate Ends(entries: Listing, f: Faults, target: string, fileName: string, content: string, o: Operation) {
    Wanted(entries, f, target, fileName, content, o) && Raises(entries, f, target, fileName, o).Some?
  }

  /** It is the first that does. */
  ghost predicate EndsFirst(entries: Listing, f: Faults, target: string, fileName: string, content: string,
                            o: Operation)
  {
    && Ends(entries, f, target, fileName, content, o)
    && forall p | Rank(p) < Rank(o) :: !Ends(entries, f, target, fileName, content, p)
  }

  /** The directory when an operation is come to: the file is there from its opening on, with its
      content from its writing on, and the label is gone when it was unlinked. */
  function Reached(entries: Listing, f: Faults, target: string, fileName: string, content: string, o: Operation)
    : Listing
  {
    var final := Resolve(entries, fileName, MAX_HOPS);
    var provided := if final.Missing? then entries[final.name := File(content)] else entries;
    match o
    case StatFile | OpenFile => entries
    case WriteFile => if final.Missing? then entries[final.name := File("")] else entries
    case CloseFile | ReadLabel | UnlinkLabel => provided
    case LinkLabel => if LabelRead(entries, f, target) then provided - {target} else provided
  }

  /** What an ending leaves: a PromoterError removes the name of a file that was opened, if it can; other
      exceptions leave everything where it was. */
  function LeftBy(entries: Listing, f: Faults, target: string, fileName: string, content: string, o: Operation)
    : Listing
  {
    var reached := Reached(entries, f, target, fileName, content, o);
    if ToCreate(entries, fileName) && Rank(o) >= 2 && !f.rollbackRemove
       && Raises(entries, f, target, fileName, o) == Some(PromoterError) then reached - {fileName}
    else reached
  }

  /** A promotion succeeds if and only if none of its operations ends it, and otherwise ends in the
      exception of the first that does, leaving the directory as that operation found it, less what
      the rollback removed. */
  lemma EndsAsFirstFailure(entries: Listing, f: Faults, target: string, fileName: string, content: string)
    ensures var r := Transaction(entries, f, target, fileName, content);
            && (r.error.None? <==> forall o :: !Ends(entries, f, target, fileName, content, o))
            && forall o | EndsFirst(entries, f, target, fileName, content, o) ::
                 r == Result(LeftBy(entries, f, target, fileName, content, o), Raises(entries, f, target, fileName, o))
  {
    hide Resolve;
    var r := Transaction(entries, f, target, fileName, content);
    forall o
      ensures r.error.None? ==> !Ends(entries, f, target, fileName, content, o)
      ensures EndsFirst(entries, f, target, fileName, content, o) ==>
                r == Result(LeftBy(entries, f, target, fileName, content, o), Raises(entries, f, target, fileName, o))
    {
      if Rank(o) <= 3 {
        CreatingEnds(entries, f, target, fileName, content, o);
      } else {
        MovingEnds(entries, f, target, fileName, content, o);
      }
    }
    if r.error.Some? {
      var o := SomethingEnds(entries, f, target, fileName, content);
    }
  }

  /** A rollback removes files; it restores no link whose label is gone. */
  lemma RollbackOnlyRemoves(entries: Listing, files: seq<string>, links: map<string, string>, f: Faults)
    requires forall l | l in links :: l !in entries
    ensures RolledBack(entries, files, links, f) ==
            if f.rollbackRemove then entries else entries - (set n | n in files)
  {
    var removed := Removed(entries, files, f);
    assert removed - links.Keys == removed;
    assert Relinked(removed, links, f) == removed;
  }

  lemma RollbackRemovesOne(entries: Listing, name: string, links: map<string, string>, f: Faults)
    requires forall l | l in links :: l !in entries
    ensures RolledBack(entries, [], links, f) == entries
    ensures RolledBack(entries, [name], links, f) == if f.rollbackRemove then entries else entries - {name}
  {
    RollbackOnlyRemoves(entries, [], links, f);
    RollbackOnlyRemoves(entries, [name], links, f);
    assert (set n | n in [name]) == {name} && entries - (set n | n in []) == entries;
  }

  lemma CreatingEnds(entries: Listing, f: Faults, target: string, fileName: string, content: string, o: Operation)
    requires Rank(o) <= 3
    ensures var r := Transaction(entries, f, target, fileName, content);
            && (r.error.None? ==> !Ends(entries, f, target, fileName, content, o))
            && (EndsFirst(entries, f, target, fileName, content, o) ==>
                 r == Result(LeftBy(entries, f, target, fileName, content, o), Raises(entries, f, target, fileName, o)))
  {
    hide Resolve, Relink, RolledBack;
    assert Rank(StatFile) == 0 && Rank(OpenFile) == 1 && Rank(WriteFile) == 2;
    if ToCreate(entries, fileName) {
      RollbackRemovesOne(Create(entries, fileName, content, f).0, fileName, map[], f);
    }
  }

  /** When the file is there or could be created, the promotion goes on with the label; else it raises. */
  lemma GoesOnToLabel(entries: Listing, f: Faults, target: string, fileName: string, content: string)
    ensures var r := Transaction(entries, f, target, fileName, content);
            var made := if ToCreate(entries, fileName) then [fileName] else [];
            if || Ends(entries, f, target, fileName, content, StatFile)
               || Ends(entries, f, target, fileName, content, OpenFile)
               || Ends(entries, f, target, fileName, content, WriteFile)
               || Ends(entries, f, target, fileName, content, CloseFile)
            then r.error.Some?
            else r == Relink(Reached(entries, f, target, fileName, content, ReadLabel), made, fileName, target, f)
  {
    hide Resolve, RolledBack, Relink;
  }

  lemma MovingEnds(entries: Listing, f: Faults, target: string, fileName: string, content: string, o: Operation)
    requires Rank(o) >= 4
    ensures var r := Transaction(entries, f, target, fileName, content);
            && (r.error.None? ==> !Ends(entries, f, target, fileName, content, o))
            && (EndsFirst(entries, f, target, fileName, content, o) ==>
                 r == Result(LeftBy(entries, f, target, fileName, content, o), Raises(entries, f, target, fileName, o)))
  {
    hide Resolve, RolledBack, Transaction;
    GoesOnToLabel(entries, f, target, fileName, content);
    assert Rank(StatFile) == 0 && Rank(OpenFile) == 1 && Rank(WriteFile) == 2 && Rank(CloseFile) == 3
           && Rank(ReadLabel) == 4 && Rank(UnlinkLabel) == 5;
    var provided := Reached(entries, f, target, fileName, content, ReadLabel);
    RollbackRemovesOne(provided, fileName, map[], f);
    if LabelRead(entries, f, target) {
      RollbackRemovesOne(provided - {target}, fileName, map[target := entries[target].dest], f);
    }
    if ToCreate(entries, fileName) {
      MissingIsAbsent(entries, fileName, MAX_HOPS);
    }
  }

  lemma SomethingEnds(entries: Listing, f: Faults, target: string, fileName: string, content: string)
    returns (o: Operation)
    requires Transaction(entries, f, target, fileName, content).error.Some?
    ensures Ends(entries, f, target, fileName, content, o)
  {
    hide Resolve, RolledBack;
    if ToCreate(entries, fileName) {
      MissingIsAbsent(entries, fileName, MAX_HOPS);
    }
    o := if Ends(entries, f, target, fileName, content, StatFile) then StatFile
         else if Ends(entries, f, target, fileName, content, OpenFile) then OpenFile
         else if Ends(entries, f, target, fileName, content, WriteFile) then WriteFile
         else if Ends(entries, f, target, fileName, content, CloseFile) then CloseFile
         else if Ends(entries, f, target, fileName, content, ReadLabel) then ReadLabel
         else if Ends(entries, f, target, fileName, content, UnlinkLabel) then UnlinkLabel
         else LinkLabel;
  }

  // ---- The transaction property ----

  /** The symlink step failed after the label had been unlinked. */
  predicate LostTheLabel(entries: Listing, f: Faults, target: string, fileName: string) {
    && f.readLink.Works? && IsLink(entries, target) && entries[target].dest != "" && entries[target].dest != fileName
    && f.unlink.Works? && f.symlink.Fails?
  }

  /** A PromoterError exit leaves everything as it was, or everything but the label. */
  predicate Restores(entries: Listing, r: Listing, target: string) {
    r == entries || (IsLink(entries, target) && r == entries - {target})
  }

  /** The artifact's file was found, or every step of creating it that was made worked. */
  predicate Provided(entries: Listing, f: Faults, fileName: string, content: string) {
    && f.stat.Works?
    && match Resolve(entries, fileName, MAX_HOPS)
       case Found(_) => true
       case Missing(_) => f.open.Works? && (content == "" || f.write.Works?) && f.close.Works?
       case Loop => false
  }

  /** Unless the artifact's name is a dangling link, every PromoterError exit whose rollback could
      remove its file restores the directory exactly, the label included; only when the symlink
      step fails after the label was unlinked is the label gone, because the rollback cannot
      unlink it a second time and so never gets to re-create it. */
  lemma FailureRestores(entries: Listing, f: Faults, target: string, fileName: string, content: string)
    requires !Dangling(entries, fileName) && !f.rollbackRemove
    requires Transaction(entries, f, target, fileName, content).error == Some(PromoterError)
    ensures Transaction(entries, f, target, fileName, content).entries ==
            if Provided(entries, f, fileName, content) && LostTheLabel(entries, f, target, fileName)
            then entries - {target} else entries
  {
    match Stat(entries, fileName, f)
    case Raised(e) =>
    case Returned(true) => RelinkRestores(entries, entries, [], fileName, target, f);
    case Returned(false) =>
      assert fileName !in entries && Resolve(entries, fileName, MAX_HOPS) == Missing(fileName);
      var (made, fault) := Create(entries, fileName, content, f);
      assert made - {fileName} == entries;
      if fault.Works? {
        RelinkRestores(entries, made, [fileName], fileName, target, f);
      } else {
        NothingToRelink(made - {fileName}, f);
      }
  }

  lemma NothingToRelink(entries: Listing, f: Faults)
    ensures Relinked(entries, map[], f) == entries
  {
  }

  /** Failing after the artifact was provided, for `made` the files just made on top of `entries`. */
  lemma RelinkRestores(entries: Listing, now: Listing, made: seq<string>, fileName: string, target: string, f: Faults)
    requires !f.rollbackRemove && (made == [] || made == [fileName])
    requires now - (set n | n in made) == entries
    requires made == [fileName] ==> fileName in now && now[fileName].File?
    ensures var r := Relink(now, made, fileName, target, f);
            r.error == Some(PromoterError) ==>
              r.entries == if LostTheLabel(entries, f, target, fileName) then entries - {target} else entries
  {
    NothingToRelink(entries, f);
    var files := set n | n in made;
    assert now - {target} - files == entries - {target};
    if LostTheLabel(entries, f, target, fileName) {
      assert Relinked(entries - {target}, map[target := entries[target].dest], f) == entries - {target};
    }
  }

  /** The exact condition: failures restore, for all contents and faults, if and only if the
      artifact's name is not a dangling link. With one, the file appears where the link leads,
      and the rollback removes the link instead. */
  lemma FailuresRestoreIffNotDangling(entries: Listing, target: string, fileName: string)
    ensures (forall f: Faults, content: string
               | !f.rollbackRemove && Transaction(entries, f, target, fileName, content).error == Some(PromoterError)
               :: Restores(entries, Transaction(entries, f, target, fileName, content).entries, target))
            <==> !Dangling(entries, fileName)
  {
    if Dangling(entries, fileName) {
      var f := NO_FAULTS.(close := Fails);
      var final := Resolve(entries, fileName, MAX_HOPS).name;
      MissingIsAbsent(entries, fileName, MAX_HOPS);
      var r := Transaction(entries, f, target, fileName, "");
      assert r == Result(entries[final := File("")] - {fileName}, Some(PromoterError));
      assert final in r.entries && final !in entries;
      assert !Restores(entries, r.entries, target);
    } else {
      forall f: Faults, content: string
        | !f.rollbackRemove && Transaction(entries, f, target, fileName, content).error == Some(PromoterError)
        ensures Restores(entries, Transaction(entries, f, target, fileName, content).entries, target)
      {
        FailureRestores(entries, f, target, fileName, content);
      }
    }
  }

  /** A directory where it happens: the name is a link to nothing, closing the new file fails, and
      afterwards the link is gone and the file it led to is there. */
  lemma DanglingIsNotRestored()
    ensures var entries := map["new" := Link("gone")];
            Transaction(entries, NO_FAULTS.(close := Fails), "label", "new", "") ==
            Result(map["gone" := File("")], Some(PromoterError))
  {
    var entries := map["new" := Link("gone")];
    assert Resolve(entries, "gone", MAX_HOPS - 1) == Missing("gone");
    assert Resolve(entries, "new", MAX_HOPS) == Missing("gone");
    var made := map["new" := Link("gone"), "gone" := File("")];
    assert entries["gone" := File("")] == made;
    assert Removed(made, ["new"], NO_FAULTS) == map["gone" := File("")];
  }

  lemma {:induction false} MissingIsAbsent(entries: Listing, name: string, hops: nat)
    requires Resolve(entries, name, hops).Missing?
    ensures Resolve(entries, name, hops).name !in entries
    decreases hops
  {
    if name in entries {
      MissingIsAbsent(entries, entries[name].dest, hops - 1);
    }
  }

  /** No exit, of any kind, removes or rewrites a file that was there before. */
  lemma OldFilesSurvive(entries: Listing, f: Faults, target: string, fileName: string, content: string, n: string)
    requires n in entries && entries[n].File?
    ensures At(Transaction(entries, f, target, fileName, content).entries, n) == Some(entries[n])
  {
    hide Relink;
    match Stat(entries, fileName, f)
    case Raised(e) =>
    case Returned(true) => RelinkKeepsFile(entries, [], fileName, target, f, n);
    case Returned(false) =>
      MissingIsAbsent(entries, fileName, MAX_HOPS);
      RelinkKeepsFile(Create(entries, fileName, content, f).0, [fileName], fileName, target, f, n);
  }

  /** Moving the label removes no file but one made before, even when it rolls back. */
  lemma RelinkKeepsFile(entries: Listing, made: seq<string>, fileName: string, target: string, f: Faults, n: string)
    requires n in entries && entries[n].File? && n !in made
    ensures At(Relink(entries, made, fileName, target, f).entries, n) == Some(entries[n])
  {
  }

  // ---- Success ----

  /** The name is the label, or its links lead through the label. */
  predicate Through(entries: Listing, name: string, target: string, hops: nat)
    decreases hops
  {
    name == target || (IsLink(entries, name) && hops > 0 && Through(entries, entries[name].dest, target, hops - 1))
  }

  /** Linking the label to a name that leads through the label closes a loop. */
  lemma {:induction false} ThroughLoops(entries: Listing, r: Listing, fileName: string, target: string, name: string,
                                        d: nat, hops: nat)
    requires At(r, target) == Some(Link(fileName))
    requires forall n | n != target && IsLink(entries, n) :: At(r, n) == At(entries, n)
    requires Through(entries, fileName, target, MAX_HOPS) && Through(entries, name, target, d)
    ensures Resolve(r, name, hops).Loop?
    decreases hops
  {
    if hops == 0 {
    } else {
      if name == target {
        ThroughLoops(entries, r, fileName, target, fileName, MAX_HOPS, hops - 1);
      } else {
        ThroughLoops(entries, r, fileName, target, entries[name].dest, d - 1, hops - 1);
      }
    }
  }

  /** A name that does not lead through the label leads where it did, or to the new file there. */
  lemma {:induction false} AvoidingKeeps(entries: Listing, r: Listing, target: string, name: string, hops: nat)
    requires !Through(entries, name, target, hops) && !Resolve(entries, name, hops).Loop?
    requires var final := Resolve(entries, name, hops).name;
             final in r && r[final].File? && forall n | n != target && n != final :: At(r, n) == At(entries, n)
    ensures Resolve(r, name, hops) == Found(Resolve(entries, name, hops).name)
    decreases hops
  {
    if IsLink(entries, name) {
      FinalIsNoLink(entries, name, hops);
      assert At(r, name) == At(entries, name);
      AvoidingKeeps(entries, r, target, entries[name].dest, hops - 1);
    }
  }

  lemma {:induction false} FinalIsNoLink(entries: Listing, name: string, hops: nat)
    requires !Resolve(entries, name, hops).Loop?
    ensures !IsLink(entries, Resolve(entries, name, hops).name)
    decreases hops
  {
    if IsLink(entries, name) {
      FinalIsNoLink(entries, entries[name].dest, hops - 1);
    }
  }

  /** The listing after a success: the label links to the artifact, the artifact's file is new
      with the given content or as it was, and nothing else changed. */
  ghost predicate Succeeded(entries: Listing, r: Listing, target: string, fileName: string, content: string) {
    && !Resolve(entries, fileName, MAX_HOPS).Loop?
    && var final := Resolve(entries, fileName, MAX_HOPS).name;
       && target != final
       && At(r, target) == Some(Link(fileName))
       && At(r, final) == Some(if final in entries then entries[final] else File(content))
       && (forall n | n != target && n != final :: At(r, n) == At(entries, n))
  }

  lemma SuccessChanges(entries: Listing, f: Faults, target: string, fileName: string, content: string)
    requires Transaction(entries, f, target, fileName, content).error.None?
    ensures Succeeded(entries, Transaction(entries, f, target, fileName, content).entries, target, fileName, content)
  {
    FinalIsNoLink(entries, fileName, MAX_HOPS);
    if Resolve(entries, fileName, MAX_HOPS).Found? {
      FoundIsFile(entries, fileName, MAX_HOPS);
    } else {
      MissingIsAbsent(entries, fileName, MAX_HOPS);
    }
  }

  lemma {:induction false} FoundIsFile(entries: Listing, name: string, hops: nat)
    requires Resolve(entries, name, hops).Found?
    ensures At(entries, Resolve(entries, name, hops).name).Some? && entries[Resolve(entries, name, hops).name].File?
    decreases hops
  {
    if IsLink(entries, name) {
      FoundIsFile(entries, entries[name].dest, hops - 1);
    }
  }

  /** After a success the label links to the artifact's name, and that name leads to the
      artifact's file if and only if it did not lead through the label before; otherwise it has
      become a loop. Nothing else changed. */
  lemma SuccessLeadsToFileIff(entries: Listing, f: Faults, target: string, fileName: string, content: string)
    requires Transaction(entries, f, target, fileName, content).error.None?
    ensures var r := Transaction(entries, f, target, fileName, content).entries;
            && Succeeded(entries, r, target, fileName, content)
            && Resolve(r, fileName, MAX_HOPS) ==
               if Through(entries, fileName, target, MAX_HOPS) then Loop
               else Found(Resolve(entries, fileName, MAX_HOPS).name)
  {
    hide Transaction, Through, Resolve;
    SuccessChanges(entries, f, target, fileName, content);
    var r := Transaction(entries, f, target, fileName, content).entries;
    FinalIsNoLink(entries, fileName, MAX_HOPS);
    if Through(entries, fileName, target, MAX_HOPS) {
      ThroughLoops(entries, r, fileName, target, fileName, MAX_HOPS, MAX_HOPS);
    } else {
      if Resolve(entries, fileName, MAX_HOPS).Found? {
        FoundIsFile(entries, fileName, MAX_HOPS);
      } else {
        MissingIsAbsent(entries, fileName, MAX_HOPS);
      }
      AvoidingKeeps(entries, r, target, fileName, MAX_HOPS);
    }
  }

  /** A directory where a success closes a loop: the name leads through the label. */
  lemma SuccessClosesLoop()
    ensures var entries := map["new" := Link("label"), "label" := Link("file"), "file" := File("")];
            var r := Transaction(entries, NO_FAULTS, "label", "new", "");
            r.error.None? && Resolve(r.entries, "new", MAX_HOPS).Loop?
  {
    var entries := map["new" := Link("label"), "label" := Link("file"), "file" := File("")];
    assert Resolve(entries, "file", MAX_HOPS - 2) == Found("file");
    assert Resolve(entries, "label", MAX_HOPS - 1) == Found("file");
    assert Resolve(entries, "new", MAX_HOPS) == Found("file");
    assert Through(entries, "label", "label", MAX_HOPS - 1);
    hide Resolve;
    assert Transaction(entries, NO_FAULTS, "label", "new", "").error.None?;
    SuccessLeadsToFileIff(entries, NO_FAULTS, "label", "new", "");
  }

  /** Without faults the promotion succeeds if and only if the artifact's name is no loop and the
      label is free or a link, and is not where the artifact itself goes. */
  lemma FaultFreeSucceedsIff(entries: Listing, target: string, fileName: string, content: string)
    requires forall n | n in entries && entries[n].Link? :: entries[n].dest != ""
    ensures Transaction(entries, NO_FAULTS, target, fileName, content).error.None? <==>
            && !Resolve(entries, fileName, MAX_HOPS).Loop?
            && (target in entries ==> entries[target].Link?)
            && target != Resolve(entries, fileName, MAX_HOPS).name
  {
    match Resolve(entries, fileName, MAX_HOPS)
    case Loop =>
    case Found(_) => FoundIsFile(entries, fileName, MAX_HOPS);
    case Missing(_) => MissingIsAbsent(entries, fileName, MAX_HOPS);
  }

  /** Repeating a successful promotion never changes the directory, whatever the content given;
      it succeeds again exactly when the first one left the label at a file. */
  lemma RepeatingIsNoOp(entries: Listing, f: Faults, target: string, fileName: string, content: string,
                        content': string)
    requires Transaction(entries, f, target, fileName, content).error.None? && fileName != ""
    ensures var r := Transaction(entries, f, target, fileName, content).entries;
            Transaction(r, NO_FAULTS, target, fileName, content') ==
            Result(r, if Through(entries, fileName, target, MAX_HOPS) then Some(PromoterError) else None)
  {
    SuccessLeadsToFileIff(entries, f, target, fileName, content);
    var r := Transaction(entries, f, target, fileName, content).entries;
    RepeatedTransaction(r, target, fileName, content');
  }

  lemma RepeatedTransaction(r: Listing, target: string, fileName: string, content: string)
    requires At(r, target) == Some(Link(fileName)) && fileName != "" && !Resolve(r, fileName, MAX_HOPS).Missing?
    ensures Transaction(r, NO_FAULTS, target, fileName, content) ==
            Result(r, if Resolve(r, fileName, MAX_HOPS).Loop? then Some(PromoterError) else None)
  {
  }
}
